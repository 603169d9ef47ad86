/** "The baselines only shrink": the reachability check against its baselines, the ratchet
    between two commits, and what both mean for a whole history of accepted commits
    (scripts/check_reachability.py). */
module Ratchet {
  import opened Prelude
  import opened PythonAst

  const UNTRIAGED := "UNTRIAGED"

  datatype Entry = Entry(name: Dotted, reason: string)

  datatype Rule = Rule(symbol: Dotted, allowed: set<Dotted>, reason: string)

  /** The tree of a commit: its baseline and rule files (None when a file is absent), and
      what the analysis finds in its sources. */
  datatype Commit = Commit(
    symbols: Option<seq<Entry>>,
    modules: Option<seq<Entry>>,
    rules: Option<seq<Rule>>,
    findings: set<Dotted>,
    moduleFindings: set<Dotted>,
    users: map<Dotted, set<Dotted>>,
    publicSymbols: set<Dotted>)

  /** A file that does not exist loads as the empty tuple. */
  function Loaded<T>(file: Option<seq<T>>): seq<T> {
    if file.Some? then file.value else []
  }

  function NamesOf(entries: seq<Entry>): set<Dotted> {
    set e | e in entries :: e.name
  }

  predicate DistinctNames(entries: seq<Entry>) {
    forall i, j :: 0 <= i < j < |entries| ==> entries[i].name != entries[j].name
  }

  predicate ValidEntry(e: Entry) {
    e.name != [""] && e.name != [] && e.reason != ""
  }

  /** `load_baseline` accepts exactly the lists of complete entries without duplicates. */
  method LoadBaseline(items: seq<Entry>) returns (ok: bool)
    ensures ok <==> DistinctNames(items) && forall e :: e in items ==> ValidEntry(e)
  {
    var seen: set<Dotted> := {};
    for i := 0 to |items|
      invariant seen == NamesOf(items[..i])
      invariant DistinctNames(items[..i]) && forall e :: e in items[..i] ==> ValidEntry(e)
    {
      assert items[..i + 1] == items[..i] + [items[i]];
      if !ValidEntry(items[i]) {
        assert items[i] in items;
        return false;
      }
      if items[i].name in seen {
        var k :| 0 <= k < i && items[..i][k].name == items[i].name;
        assert items[k].name == items[i].name;
        return false;
      }
      seen := seen + {items[i].name};
    }
    assert items[..|items|] == items;
    ok := true;
  }

  // --- The check ----------------------------------------------------------------------------

  function UsersOf(c: Commit, symbol: Dotted): set<Dotted> {
    if symbol in c.users then c.users[symbol] else {}
  }

  /** `check` reports ok: nothing new beyond the baselines, no forbidden reference. */
  predicate CheckOk(c: Commit) {
    && c.findings <= NamesOf(Loaded(c.symbols))
    && c.moduleFindings <= NamesOf(Loaded(c.modules))
    && forall r :: r in Loaded(c.rules) ==> UsersOf(c, r.symbol) <= r.allowed
  }

  // --- The ratchet ----------------------------------------------------------------------------

  predicate IsUntriaged(e: Entry) {
    UNTRIAGED <= e.reason
  }

  function CountUntriaged(entries: seq<Entry>): nat {
    if entries == [] then 0
    else CountUntriaged(entries[..|entries| - 1]) + if IsUntriaged(entries[|entries| - 1]) then 1 else 0
  }

  function Untriaged(c: Commit): nat {
    CountUntriaged(Loaded(c.symbols)) + CountUntriaged(Loaded(c.modules))
  }

  function ModuleOf(symbol: Dotted): Dotted {
    if |symbol| <= 1 then [""] else symbol[..|symbol| - 1]
  }

  /** The rule in force for a symbol: the last one listed. */
  function RuleFor(rules: seq<Rule>, symbol: Dotted): Option<Rule> {
    if rules == [] then None
    else if rules[|rules| - 1].symbol == symbol then Some(rules[|rules| - 1])
    else RuleFor(rules[..|rules| - 1], symbol)
  }

  predicate Shrinks(old_: Option<seq<Entry>>, new_: seq<Entry>) {
    old_.Some? ==> forall e :: e in new_ ==> e.name in NamesOf(old_.value)
  }

  predicate SymbolsTriaged(entries: seq<Entry>, touched: set<Dotted>) {
    forall e :: e in entries && IsUntriaged(e) ==> ModuleOf(e.name) !in touched
  }

  predicate ModulesTriaged(entries: seq<Entry>, touched: set<Dotted>) {
    forall e :: e in entries && IsUntriaged(e) ==> e.name !in touched
  }

  predicate RuleKept(oldRule: Rule, c: Commit) {
    var rule := RuleFor(Loaded(c.rules), oldRule.symbol);
    if rule.None? then oldRule.symbol !in c.publicSymbols else rule.value.allowed <= oldRule.allowed
  }

  predicate RuleUsed(rule: Rule, c: Commit) {
    RuleFor(Loaded(c.rules), rule.symbol) == Some(rule) ==> rule.allowed <= UsersOf(c, rule.symbol)
  }

  /** What a clean ratchet run between the fork point `base` and `c` promises. */
  predicate RatchetHolds(base: Commit, c: Commit, touched: set<Dotted>, minBurn: int) {
    && Shrinks(base.symbols, Loaded(c.symbols))
    && Shrinks(base.modules, Loaded(c.modules))
    && NamesOf(Loaded(c.symbols)) <= c.findings
    && NamesOf(Loaded(c.modules)) <= c.moduleFindings
    && SymbolsTriaged(Loaded(c.symbols), touched)
    && ModulesTriaged(Loaded(c.modules), touched)
    && (minBurn != 0 ==> Untriaged(base) - Untriaged(c) >= minBurn)
    && (forall r :: r in Loaded(base.rules) ==> RuleKept(r, c))
    && (forall r :: r in Loaded(c.rules) ==> RuleUsed(r, c))
  }

  datatype Violation =
    | NewEntry(name: Dotted)
    | StaleEntry(name: Dotted)
    | TouchedUntriaged(name: Dotted)
    | BurnMissed
    | RuleRemoved(symbol: Dotted)
    | RuleGrew(symbol: Dotted)
    | RuleUnused(symbol: Dotted)

  method NewEntries(old_: Option<seq<Entry>>, new_: seq<Entry>) returns (errors: seq<Violation>)
    ensures errors == [] <==> Shrinks(old_, new_)
  {
    errors := [];
    if old_.None? { return; }
    var before := NamesOf(old_.value);
    for i := 0 to |new_|
      invariant errors == [] <==> forall k :: 0 <= k < i ==> new_[k].name in before
    {
      if new_[i].name !in before {
        errors := errors + [NewEntry(new_[i].name)];
      }
    }
  }

  method StaleEntries(entries: seq<Entry>, findings: set<Dotted>) returns (errors: seq<Violation>)
    ensures errors == [] <==> NamesOf(entries) <= findings
  {
    errors := [];
    for i := 0 to |entries|
      invariant errors == [] <==> forall k :: 0 <= k < i ==> entries[k].name in findings
    {
      if entries[i].name !in findings {
        errors := errors + [StaleEntry(entries[i].name)];
      }
    }
    forall k | 0 <= k < |entries| ensures entries[k].name in NamesOf(entries) {
      assert entries[k] in entries;
    }
  }

  /** Counts the untriaged entries and complains about those in touched modules. */
  method TouchedEntries(entries: seq<Entry>, isModules: bool, touched: set<Dotted>)
    returns (errors: seq<Violation>, count: nat)
    ensures errors == [] <==> if isModules then ModulesTriaged(entries, touched) else SymbolsTriaged(entries, touched)
    ensures count == CountUntriaged(entries)
  {
    errors, count := [], 0;
    for i := 0 to |entries|
      invariant count == CountUntriaged(entries[..i])
      invariant errors == [] <==> forall k :: 0 <= k < i && IsUntriaged(entries[k]) ==>
                  (if isModules then entries[k].name else ModuleOf(entries[k].name)) !in touched
    {
      var e := entries[i];
      assert entries[..i + 1][..i] == entries[..i];
      if IsUntriaged(e) {
        count := count + 1;
        if (if isModules then e.name else ModuleOf(e.name)) in touched {
          errors := errors + [TouchedUntriaged(e.name)];
        }
      }
    }
    assert entries[..|entries|] == entries;
  }

  method RuleErrors(base: Commit, c: Commit) returns (errors: seq<Violation>)
    ensures errors == [] <==> (forall r :: r in Loaded(base.rules) ==> RuleKept(r, c))
                              && (forall r :: r in Loaded(c.rules) ==> RuleUsed(r, c))
  {
    errors := [];
    var old_, new_ := Loaded(base.rules), Loaded(c.rules);
    for i := 0 to |old_|
      invariant errors == [] <==> forall k :: 0 <= k < i ==> RuleKept(old_[k], c)
    {
      var rule := RuleFor(new_, old_[i].symbol);
      if rule.None? {
        if old_[i].symbol in c.publicSymbols {
          errors := errors + [RuleRemoved(old_[i].symbol)];
        }
      } else if !(rule.value.allowed <= old_[i].allowed) {
        errors := errors + [RuleGrew(old_[i].symbol)];
      }
    }
    ghost var kept := errors == [];
    for i := 0 to |new_|
      invariant errors == [] <==> kept && forall k :: 0 <= k < i ==> RuleUsed(new_[k], c)
    {
      if RuleFor(new_, new_[i].symbol) == Some(new_[i]) && !(new_[i].allowed <= UsersOf(c, new_[i].symbol)) {
        errors := errors + [RuleUnused(new_[i].symbol)];
      }
    }
  }

  /** `ratchet` reports nothing exactly when its promise holds. */
  method RunRatchet(base: Commit, c: Commit, touched: set<Dotted>, minBurn: int) returns (errors: seq<Violation>)
    ensures errors == [] <==> RatchetHolds(base, c, touched, minBurn)
    ensures errors == [] <==> Promise(base, c, touched, minBurn)
  {
    RatchetIsPromise(base, c, touched, minBurn);
    var newSymbols := NewEntries(base.symbols, Loaded(c.symbols));
    var newModules := NewEntries(base.modules, Loaded(c.modules));
    var staleSymbols := StaleEntries(Loaded(c.symbols), c.findings);
    var staleModules := StaleEntries(Loaded(c.modules), c.moduleFindings);
    var touchedSymbols, countSymbols := TouchedEntries(Loaded(c.symbols), false, touched);
    var touchedModules, countModules := TouchedEntries(Loaded(c.modules), true, touched);
    errors := newSymbols + newModules + staleSymbols + staleModules + touchedSymbols + touchedModules;
    if minBurn != 0 && Untriaged(base) - (countSymbols + countModules) < minBurn {
      errors := errors + [BurnMissed];
    }
    var ruleErrors := RuleErrors(base, c);
    errors := errors + ruleErrors;
  }

  // --- The promise, spelled out --------------------------------------------------------------

  ghost predicate LastRule(rules: seq<Rule>, symbol: Dotted, i: int) {
    0 <= i < |rules| && rules[i].symbol == symbol && forall j :: i < j < |rules| ==> rules[j].symbol != symbol
  }

  lemma {:induction false} RuleForIsLast(rules: seq<Rule>, symbol: Dotted, rule: Rule)
    ensures RuleFor(rules, symbol) == Some(rule) <==> exists i :: LastRule(rules, symbol, i) && rules[i] == rule
    ensures RuleFor(rules, symbol).None? <==> forall r :: r in rules ==> r.symbol != symbol
  {
    if rules != [] {
      var n := |rules| - 1;
      var init := rules[..n];
      RuleForIsLast(init, symbol, rule);
      assert rules == init + [rules[n]];
      if rules[n].symbol == symbol {
        assert LastRule(rules, symbol, n);
        assert forall i :: LastRule(rules, symbol, i) ==> i == n;
      } else {
        assert forall i :: LastRule(rules, symbol, i) <==> LastRule(init, symbol, i);
      }
    }
  }

  predicate StillOpen(e: Entry) {
    |e.reason| >= 9 && e.reason[..9] == "UNTRIAGED"
  }

  /** What a clean run promises, in the terms of the files: no name that the base did not have,
      unless the base had no such file; no name that is not found any more; no untriaged entry
      in a module that the branch touched, be it a symbol m.x of a touched m or a touched module
      itself; no rule dropped while its symbol exists, none that allows more than before, and
      none that allows a module which does not use the symbol. */
  ghost predicate Promise(base: Commit, c: Commit, touched: set<Dotted>, minBurn: int) {
    && (base.symbols.Some? ==>
          forall e :: e in Loaded(c.symbols) ==> exists o :: o in base.symbols.value && o.name == e.name)
    && (base.modules.Some? ==>
          forall e :: e in Loaded(c.modules) ==> exists o :: o in base.modules.value && o.name == e.name)
    && (forall e :: e in Loaded(c.symbols) ==> e.name in c.findings)
    && (forall e :: e in Loaded(c.modules) ==> e.name in c.moduleFindings)
    && (forall e :: e in Loaded(c.symbols) && StillOpen(e) ==>
          (if |e.name| <= 1 then [""] else e.name[..|e.name| - 1]) !in touched)
    && (forall e :: e in Loaded(c.modules) && StillOpen(e) ==> e.name !in touched)
    && (minBurn != 0 ==> Untriaged(base) - Untriaged(c) >= minBurn)
    && (forall o :: o in Loaded(base.rules) && o.symbol in c.publicSymbols ==>
          exists r :: r in Loaded(c.rules) && r.symbol == o.symbol)
    && (forall o, i :: o in Loaded(base.rules) && LastRule(Loaded(c.rules), o.symbol, i) ==>
          Loaded(c.rules)[i].allowed <= o.allowed)
    && (forall i :: 0 <= i < |Loaded(c.rules)| && LastRule(Loaded(c.rules), Loaded(c.rules)[i].symbol, i) ==>
          Loaded(c.rules)[i].allowed <= UsersOf(c, Loaded(c.rules)[i].symbol))
  }

  lemma RatchetIsPromise(base: Commit, c: Commit, touched: set<Dotted>, minBurn: int)
    ensures RatchetHolds(base, c, touched, minBurn) <==> Promise(base, c, touched, minBurn)
  {
    assert forall e: Entry :: StillOpen(e) <==> IsUntriaged(e);
    KeptIsPromised(base, c);
    UsedIsPromised(c);
    NamesArePromised(Loaded(c.symbols), c.findings);
    NamesArePromised(Loaded(c.modules), c.moduleFindings);
  }

  lemma NamesArePromised(entries: seq<Entry>, found: set<Dotted>)
    ensures NamesOf(entries) <= found <==> forall e :: e in entries ==> e.name in found
  {
    assert forall e :: e in entries ==> e.name in NamesOf(entries);
  }

  lemma KeptIsPromised(base: Commit, c: Commit)
    ensures (forall r :: r in Loaded(base.rules) ==> RuleKept(r, c)) <==>
              && (forall o :: o in Loaded(base.rules) && o.symbol in c.publicSymbols ==>
                    exists r :: r in Loaded(c.rules) && r.symbol == o.symbol)
              && (forall o, i :: o in Loaded(base.rules) && LastRule(Loaded(c.rules), o.symbol, i) ==>
                    Loaded(c.rules)[i].allowed <= o.allowed)
  {
    forall o | o in Loaded(base.rules)
      ensures RuleKept(o, c) <==>
                && (o.symbol in c.publicSymbols ==> exists r :: r in Loaded(c.rules) && r.symbol == o.symbol)
                && (forall i :: LastRule(Loaded(c.rules), o.symbol, i) ==> Loaded(c.rules)[i].allowed <= o.allowed)
    {
      OneKept(o, c);
    }
  }

  lemma OneKept(o: Rule, c: Commit)
    ensures RuleKept(o, c) <==>
              && (o.symbol in c.publicSymbols ==> exists r :: r in Loaded(c.rules) && r.symbol == o.symbol)
              && (forall i :: LastRule(Loaded(c.rules), o.symbol, i) ==> Loaded(c.rules)[i].allowed <= o.allowed)
  {
    var rules, found := Loaded(c.rules), RuleFor(Loaded(c.rules), o.symbol);
    forall r ensures found == Some(r) <==> exists i :: LastRule(rules, o.symbol, i) && rules[i] == r {
      RuleForIsLast(rules, o.symbol, r);
    }
    RuleForIsLast(rules, o.symbol, o);
    forall i | LastRule(rules, o.symbol, i) ensures found == Some(rules[i]) {
    }
  }

  lemma UsedIsPromised(c: Commit)
    ensures (forall r :: r in Loaded(c.rules) ==> RuleUsed(r, c)) <==>
              forall i :: 0 <= i < |Loaded(c.rules)| && LastRule(Loaded(c.rules), Loaded(c.rules)[i].symbol, i) ==>
                Loaded(c.rules)[i].allowed <= UsersOf(c, Loaded(c.rules)[i].symbol)
  {
    var rules := Loaded(c.rules);
    forall r | r in rules
      ensures RuleFor(rules, r.symbol) == Some(r) <==> exists i :: LastRule(rules, r.symbol, i) && rules[i] == r
    {
      RuleForIsLast(rules, r.symbol, r);
    }
    if forall r :: r in rules ==> RuleUsed(r, c) {
      forall i | 0 <= i < |rules| && LastRule(rules, rules[i].symbol, i)
        ensures rules[i].allowed <= UsersOf(c, rules[i].symbol)
      {
        assert rules[i] in rules && RuleUsed(rules[i], c);
      }
    }
  }

  // --- One accepted commit -----------------------------------------------------------------------

  predicate Accepted(base: Commit, c: Commit, touched: set<Dotted>, minBurn: int) {
    CheckOk(c) && RatchetHolds(base, c, touched, minBurn)
  }

  lemma {:induction false} RuleForIsListed(rules: seq<Rule>, symbol: Dotted)
    ensures var r := RuleFor(rules, symbol); r.Some? ==> r.value in rules && r.value.symbol == symbol
    ensures (exists r :: r in rules && r.symbol == symbol) ==> RuleFor(rules, symbol).Some?
  {
    if rules != [] { RuleForIsListed(rules[..|rules| - 1], symbol); }
  }

  /** An accepted commit's baselines are exactly its findings, and every rule allows exactly
      the production users its symbol really has: nothing is missing and nothing is padding. */
  lemma AcceptedBaselinesAreExact(base: Commit, c: Commit, touched: set<Dotted>, minBurn: int, symbol: Dotted)
    requires Accepted(base, c, touched, minBurn)
    ensures NamesOf(Loaded(c.symbols)) == c.findings
    ensures NamesOf(Loaded(c.modules)) == c.moduleFindings
    ensures var rule := RuleFor(Loaded(c.rules), symbol);
            rule.Some? ==> rule.value.allowed == UsersOf(c, symbol)
  {
    RuleForIsListed(Loaded(c.rules), symbol);
  }

  // --- Histories -----------------------------------------------------------------------------------

  /** What a pull request was checked with. */
  datatype Run = Run(touched: set<Dotted>, minBurn: int)

  /** A linear history: every commit after the first was accepted against its predecessor. */
  ghost predicate Chain(cs: seq<Commit>, runs: seq<Run>) {
    && |cs| == |runs| + 1
    && (forall i :: 0 <= i < |runs| ==> Accepted(cs[i], cs[i + 1], runs[i].touched, runs[i].minBurn))
  }

  /** A history in which the baseline files are never removed. */
  ghost predicate History(cs: seq<Commit>, runs: seq<Run>) {
    Chain(cs, runs) && forall i :: 0 <= i < |cs| ==> cs[i].symbols.Some? && cs[i].modules.Some?
  }

  /** From one accepted commit to the next the findings shrink exactly when the baseline file
      was there to compare with, or nothing is found any more. */
  lemma ShrinksIffFileKept(cs: seq<Commit>, runs: seq<Run>, i: nat)
    requires Chain(cs, runs) && 1 <= i < |runs|
    ensures cs[i + 1].findings <= cs[i].findings <==> cs[i].symbols.Some? || cs[i + 1].findings == {}
    ensures cs[i + 1].moduleFindings <= cs[i].moduleFindings <==> cs[i].modules.Some? || cs[i + 1].moduleFindings == {}
  {
    var j := i - 1;
    assert Accepted(cs[j], cs[j + 1], runs[j].touched, runs[j].minBurn);
    assert Accepted(cs[i], cs[i + 1], runs[i].touched, runs[i].minBurn);
    AcceptedBaselinesAreExact(cs[j], cs[i], runs[j].touched, runs[j].minBurn, []);
    AcceptedBaselinesAreExact(cs[i], cs[i + 1], runs[i].touched, runs[i].minBurn, []);
  }

  /** Without the file anything goes: once a clean commit has removed its baseline, the next
      one may seed it with any findings at all. */
  lemma RemovedBaselineIsReseeded(entries: seq<Entry>)
    ensures var gone := Commit(None, Some([]), Some([]), {}, {}, map[], {});
            var seeded := gone.(symbols := Some(entries), findings := NamesOf(entries));
            Chain([gone, gone, seeded], [Run({}, 0), Run({}, 0)])
  {
    var gone := Commit(None, Some([]), Some([]), {}, {}, map[], {});
    var seeded := gone.(symbols := Some(entries), findings := NamesOf(entries));
    assert Accepted(gone, gone, {}, 0) && Accepted(gone, seeded, {}, 0);
  }

  /** Along any accepted history, whatever happens to the baseline files, the production users
      of a symbol only ever shrink for as long as its rule is kept. */
  lemma {:induction false} UsersOnlyShrink(cs: seq<Commit>, runs: seq<Run>, i: nat, j: nat, symbol: Dotted)
    requires Chain(cs, runs) && 1 <= i <= j < |cs|
    requires forall k :: i <= k <= j ==> RuleFor(Loaded(cs[k].rules), symbol).Some?
    ensures UsersOf(cs[j], symbol) <= UsersOf(cs[i], symbol)
    decreases j - i
  {
    if i < j {
      UsersOnlyShrink(cs, runs, i, j - 1, symbol);
      var before, after := cs[j - 1], cs[j];
      assert Accepted(before, cs[j - 1 + 1], runs[j - 1].touched, runs[j - 1].minBurn);
      assert Accepted(cs[j - 2], cs[j - 2 + 1], runs[j - 2].touched, runs[j - 2].minBurn);
      AcceptedBaselinesAreExact(cs[j - 2], before, runs[j - 2].touched, runs[j - 2].minBurn, symbol);
      AcceptedBaselinesAreExact(before, after, runs[j - 1].touched, runs[j - 1].minBurn, symbol);
      RuleForIsListed(Loaded(before.rules), symbol);
    }
  }

  /** Where the baseline files are kept, so do the findings and the orphan modules. */
  lemma {:induction false} FindingsOnlyShrink(cs: seq<Commit>, runs: seq<Run>, i: nat, j: nat)
    requires History(cs, runs) && 1 <= i <= j < |cs|
    ensures cs[j].findings <= cs[i].findings && cs[j].moduleFindings <= cs[i].moduleFindings
    decreases j - i
  {
    if i < j {
      FindingsOnlyShrink(cs, runs, i, j - 1);
      ShrinksIffFileKept(cs, runs, j - 1);
    }
  }

  /** A rule disappears only together with the public symbol it protects. */
  lemma RulesOutliveTheirSymbols(cs: seq<Commit>, runs: seq<Run>, i: nat, symbol: Dotted)
    requires Chain(cs, runs) && i < |runs|
    requires RuleFor(Loaded(cs[i].rules), symbol).Some? && symbol in cs[i + 1].publicSymbols
    ensures RuleFor(Loaded(cs[i + 1].rules), symbol).Some?
  {
    RuleForIsListed(Loaded(cs[i].rules), symbol);
    assert Accepted(cs[i], cs[i + 1], runs[i].touched, runs[i].minBurn);
  }

  // --- Burning down the untriaged entries -------------------------------------------------------------

  function UntriagedNames(entries: seq<Entry>): set<Dotted> {
    set e | e in entries && IsUntriaged(e) :: e.name
  }

  /** Entries that were triaged in the old list and are UNTRIAGED in the new one. */
  function Relabelled(old_: seq<Entry>, new_: seq<Entry>): set<Dotted> {
    (UntriagedNames(new_) - UntriagedNames(old_)) * NamesOf(old_)
  }

  lemma {:induction false} CountIsCardinality(entries: seq<Entry>)
    requires DistinctNames(entries)
    ensures CountUntriaged(entries) == |UntriagedNames(entries)|
  {
    if entries != [] {
      var init, last := entries[..|entries| - 1], entries[|entries| - 1];
      CountIsCardinality(init);
      if IsUntriaged(last) {
        assert UntriagedNames(entries) == UntriagedNames(init) + {last.name};
        assert last.name !in UntriagedNames(init);
      } else {
        assert UntriagedNames(entries) == UntriagedNames(init);
      }
    }
  }

  /** Entries that were UNTRIAGED in the old list and are triaged or gone in the new one. */
  function Settled(old_: seq<Entry>, new_: seq<Entry>): set<Dotted> {
    UntriagedNames(old_) - UntriagedNames(new_)
  }

  lemma SetBalance<T>(a: set<T>, b: set<T>)
    ensures |b| + |a - b| == |a| + |b - a|
  {
    assert a == (a * b) + (a - b) && b == (a * b) + (b - a);
  }

  /** The account of one list: what was there, plus what was relabelled, is what is there now,
      plus what was settled. */
  lemma CountIsConserved(old_: seq<Entry>, new_: seq<Entry>)
    requires DistinctNames(old_) && DistinctNames(new_) && Shrinks(Some(old_), new_)
    ensures CountUntriaged(new_) + |Settled(old_, new_)| == CountUntriaged(old_) + |Relabelled(old_, new_)|
  {
    CountIsCardinality(old_);
    CountIsCardinality(new_);
    SetBalance(UntriagedNames(old_), UntriagedNames(new_));
    assert Relabelled(old_, new_) == UntriagedNames(new_) - UntriagedNames(old_);
  }

  function SettledCount(a: Commit, b: Commit): nat {
    |Settled(Loaded(a.symbols), Loaded(b.symbols))| + |Settled(Loaded(a.modules), Loaded(b.modules))|
  }

  ghost predicate LoadedCommit(c: Commit) {
    DistinctNames(Loaded(c.symbols)) && DistinctNames(Loaded(c.modules))
  }

  /** One accepted commit: the pot changes by exactly what it relabels and settles, so it grows
      exactly when more is relabelled than settled. */
  lemma PotGrowsIff(a: Commit, b: Commit, run: Run)
    requires Accepted(a, b, run.touched, run.minBurn) && a.symbols.Some? && a.modules.Some?
    requires LoadedCommit(a) && LoadedCommit(b)
    ensures Untriaged(b) + SettledCount(a, b) == Untriaged(a) + RelabelCount(a, b)
    ensures Untriaged(b) > Untriaged(a) <==> RelabelCount(a, b) > SettledCount(a, b)
  {
    CountIsConserved(Loaded(a.symbols), Loaded(b.symbols));
    CountIsConserved(Loaded(a.modules), Loaded(b.modules));
  }

  function RelabelCount(a: Commit, b: Commit): nat {
    |Relabelled(Loaded(a.symbols), Loaded(b.symbols))| + |Relabelled(Loaded(a.modules), Loaded(b.modules))|
  }

  function CountTrue(flags: seq<bool>): nat {
    if flags == [] then 0 else CountTrue(flags[..|flags| - 1]) + if flags[|flags| - 1] then 1 else 0
  }

  /** The sum of those amounts whose flag is not set. */
  function SumUnless(amounts: seq<nat>, flags: seq<bool>): nat
    requires |amounts| == |flags|
  {
    if flags == [] then 0
    else
      var m := |flags| - 1;
      SumUnless(amounts[..m], flags[..m]) + if flags[m] then 0 else amounts[m]
  }

  /** Which of the runs demanded a burn of at least `n`. */
  function Burning(runs: seq<Run>, n: int): seq<bool> {
    seq(|runs|, i requires 0 <= i < |runs| => runs[i].minBurn >= n)
  }

  function Burns(runs: seq<Run>, n: int): nat {
    CountTrue(Burning(runs, n))
  }

  /** An amount for each commit after the first, measured against its predecessor. */
  function Gains(cs: seq<Commit>, gain: (Commit, Commit) -> nat): seq<nat>
    requires cs != []
  {
    seq(|cs| - 1, i requires 0 <= i < |cs| - 1 => gain(cs[i], cs[i + 1]))
  }

  /** Relabellings in the commits that did not have to burn `n`. */
  function Relabels(cs: seq<Commit>, runs: seq<Run>, n: int): nat
    requires |cs| == |runs| + 1
  {
    SumUnless(Gains(cs, RelabelCount), Burning(runs, n))
  }

  ghost predicate LoadedCommits(cs: seq<Commit>) {
    forall i :: 0 <= i < |cs| ==> LoadedCommit(cs[i])
  }

  /** `n` for every flag that is set. */
  function Taken(flags: seq<bool>, n: int): int {
    if flags == [] then 0 else Taken(flags[..|flags| - 1], n) + if flags[|flags| - 1] then n else 0
  }

  lemma {:induction false} TakenIsProduct(flags: seq<bool>, n: int)
    ensures Taken(flags, n) == n * CountTrue(flags)
  {
    if flags == [] {
      assert n * 0 == 0;
    } else {
      TakenIsProduct(flags[..|flags| - 1], n);
      var k := CountTrue(flags[..|flags| - 1]);
      assert n * (k + 1) == n * k + n;
    }
  }

  /** A pot that loses `n` at every flagged step and gains at most `gains[i]` at the others. */
  lemma {:induction false} PotBudget(pot: seq<int>, gains: seq<nat>, flags: seq<bool>, n: int)
    requires |pot| == |flags| + 1 && |gains| == |flags|
    requires forall i :: 0 <= i < |flags| ==> pot[i + 1] <= if flags[i] then pot[i] - n else pot[i] + gains[i]
    ensures Taken(flags, n) + pot[|flags|] <= pot[0] + SumUnless(gains, flags)
    decreases |flags|
  {
    if flags != [] {
      var m := |flags| - 1;
      var pot', gains', flags' := pot[..m + 1], gains[..m], flags[..m];
      forall i | 0 <= i < m ensures pot'[i + 1] <= if flags'[i] then pot'[i] - n else pot'[i] + gains'[i] {
        assert pot[i + 1] <= if flags[i] then pot[i] - n else pot[i] + gains[i];
      }
      PotBudget(pot', gains', flags', n);
      assert pot[m + 1] <= if flags[m] then pot[m] - n else pot[m] + gains[m];
    }
  }

  /** What one commit burned against what it gained. */
  ghost predicate MeasuredStep(
      cs: seq<Commit>, flags: seq<bool>, n: int, size: Commit -> nat, gain: (Commit, Commit) -> nat, i: int) {
    0 <= i < |flags| && i + 1 < |cs| &&
    size(cs[i + 1]) <= if flags[i] then size(cs[i]) - n else size(cs[i]) + gain(cs[i], cs[i + 1])
  }

  lemma HistoryIsBalanced(cs: seq<Commit>, runs: seq<Run>, n: int, i: nat)
    requires History(cs, runs) && LoadedCommits(cs) && n > 0 && i < |runs|
    ensures MeasuredStep(cs, Burning(runs, n), n, Untriaged, RelabelCount, i)
  {
    PotGrowsIff(cs[i], cs[i + 1], runs[i]);
  }

  /** The budget for any measure of commits whose growth `gain` bounds. */
  lemma MeasuredBudget(cs: seq<Commit>, flags: seq<bool>, n: int, size: Commit -> nat, gain: (Commit, Commit) -> nat)
    requires |cs| == |flags| + 1 && forall i :: 0 <= i < |flags| ==> MeasuredStep(cs, flags, n, size, gain, i)
    ensures Taken(flags, n) + size(cs[|flags|]) <= size(cs[0]) + SumUnless(Gains(cs, gain), flags)
  {
    var pot: seq<int> := seq(|cs|, i requires 0 <= i < |cs| => size(cs[i]));
    var gains := Gains(cs, gain);
    forall i | 0 <= i < |flags| ensures pot[i + 1] <= if flags[i] then pot[i] - n else pot[i] + gains[i] {
      assert MeasuredStep(cs, flags, n, size, gain, i);
    }
    PotBudget(pot, gains, flags, n);
  }

  function Total(amounts: seq<nat>): nat {
    if amounts == [] then 0 else Total(amounts[..|amounts| - 1]) + amounts[|amounts| - 1]
  }

  lemma GainsLast(cs: seq<Commit>, gain: (Commit, Commit) -> nat)
    requires |cs| > 1
    ensures Total(Gains(cs, gain)) ==
              Total(Gains(cs[..|cs| - 1], gain)) + gain(cs[|cs| - 2], cs[|cs| - 1])
  {
    var m := |cs| - 2;
    assert Gains(cs, gain)[..m] == Gains(cs[..m + 1], gain);
    assert Gains(cs, gain)[m] == gain(cs[m], cs[m + 1]);
  }

  /** An account that balances at every step balances over all of them. */
  lemma {:induction false} MeasuredConservation(
      cs: seq<Commit>, size: Commit -> nat, loss: (Commit, Commit) -> nat, gain: (Commit, Commit) -> nat)
    requires cs != []
    requires forall i :: 0 <= i < |cs| - 1 ==>
               size(cs[i + 1]) + loss(cs[i], cs[i + 1]) == size(cs[i]) + gain(cs[i], cs[i + 1])
    ensures size(cs[|cs| - 1]) + Total(Gains(cs, loss)) == size(cs[0]) + Total(Gains(cs, gain))
    decreases |cs|
  {
    if |cs| > 1 {
      var m := |cs| - 2;
      var init := cs[..m + 1];
      assert forall i :: 0 <= i < |init| ==> init[i] == cs[i];
      MeasuredConservation(init, size, loss, gain);
      GainsLast(cs, loss);
      GainsLast(cs, gain);
      assert size(cs[m + 1]) + loss(cs[m], cs[m + 1]) == size(cs[m]) + gain(cs[m], cs[m + 1]);
    }
  }

  /** Conservation over any accepted history: what is untriaged at the end and what was settled
      on the way is what was untriaged at the start and what was relabelled on the way. */
  lemma UntriagedIsConserved(cs: seq<Commit>, runs: seq<Run>)
    requires History(cs, runs) && LoadedCommits(cs)
    ensures Untriaged(cs[|runs|]) + Total(Gains(cs, SettledCount)) == Untriaged(cs[0]) + Total(Gains(cs, RelabelCount))
  {
    forall i | 0 <= i < |cs| - 1
      ensures Untriaged(cs[i + 1]) + SettledCount(cs[i], cs[i + 1]) == Untriaged(cs[i]) + RelabelCount(cs[i], cs[i + 1])
    {
      PotGrowsIff(cs[i], cs[i + 1], runs[i]);
    }
    MeasuredConservation(cs, Untriaged, SettledCount, RelabelCount);
  }

  /** The burns on that account: every commit that had to burn at least `n` took `n` entries out of the pot,
      and only a relabelling in another commit puts any back. */
  lemma BurnBudget(cs: seq<Commit>, runs: seq<Run>, n: int)
    requires History(cs, runs) && LoadedCommits(cs) && n > 0
    ensures n * Burns(runs, n) + Untriaged(cs[|runs|]) <= Untriaged(cs[0]) + Relabels(cs, runs, n)
  {
    var flags := Burning(runs, n);
    forall i | 0 <= i < |flags| ensures MeasuredStep(cs, flags, n, Untriaged, RelabelCount, i) {
      HistoryIsBalanced(cs, runs, n, i);
    }
    MeasuredBudget(cs, flags, n, Untriaged, RelabelCount);
    TakenIsProduct(flags, n);
  }

  lemma {:induction false} NothingToSum(amounts: seq<nat>, flags: seq<bool>)
    requires |amounts| == |flags| && forall i :: 0 <= i < |flags| ==> flags[i] || amounts[i] == 0
    ensures SumUnless(amounts, flags) == 0
  {
    if flags != [] { NothingToSum(amounts[..|flags| - 1], flags[..|flags| - 1]); }
  }

  /** In a history of any mixture of commits, a pot of U pays for at most U/n burns of `n` or
      more, provided that the commits which need not burn relabel nothing. */
  lemma BurnsAreBounded(cs: seq<Commit>, runs: seq<Run>, n: int)
    requires History(cs, runs) && LoadedCommits(cs) && n > 0
    requires forall i :: 0 <= i < |runs| ==> runs[i].minBurn >= n || RelabelCount(cs[i], cs[i + 1]) == 0
    ensures n * Burns(runs, n) <= Untriaged(cs[0])
  {
    BurnBudget(cs, runs, n);
    var counts, flags := Gains(cs, RelabelCount), Burning(runs, n);
    assert forall i :: 0 <= i < |flags| ==> flags[i] || counts[i] == 0;
    NothingToSum(counts, flags);
  }

  lemma {:induction false} AllFlagged(amounts: seq<nat>, flags: seq<bool>)
    requires |amounts| == |flags| && forall i :: 0 <= i < |flags| ==> flags[i]
    ensures CountTrue(flags) == |flags| && SumUnless(amounts, flags) == 0
  {
    if flags != [] { AllFlagged(amounts[..|flags| - 1], flags[..|flags| - 1]); }
  }

  lemma Commutes(a: int, b: int)
    ensures a * b == b * a
  {
  }

  /** If every commit of a train must burn `n` or more, then a pot of U lasts for at most U/n. */
  lemma TrainsAreBounded(cs: seq<Commit>, runs: seq<Run>, n: int)
    requires History(cs, runs) && LoadedCommits(cs) && n > 0
    requires forall i :: 0 <= i < |runs| ==> runs[i].minBurn >= n
    ensures |runs| * n <= Untriaged(cs[0])
  {
    BurnBudget(cs, runs, n);
    AllFlagged(Gains(cs, RelabelCount), Burning(runs, n));
    Commutes(n, |runs|);
  }

  // --- Relabelling refills the pot -------------------------------------------------------------

  function OneUntriaged(name: Dotted): Commit {
    Commit(Some([Entry(name, UNTRIAGED)]), Some([]), Some([]), {name}, {}, map[], {})
  }

  function OneTriaged(name: Dotted): Commit {
    OneUntriaged(name).(symbols := Some([Entry(name, "kept on purpose")]))
  }

  lemma BackAndForth(name: Dotted)
    ensures Untriaged(OneUntriaged(name)) == 1 && Untriaged(OneTriaged(name)) == 0
    ensures Accepted(OneUntriaged(name), OneTriaged(name), {}, 1)
    ensures Accepted(OneTriaged(name), OneUntriaged(name), {}, 0)
    ensures LoadedCommit(OneUntriaged(name)) && LoadedCommit(OneTriaged(name))
  {
    var open := [Entry(name, UNTRIAGED)];
    var triaged := [Entry(name, "kept on purpose")];
    assert open[..0] == [] && triaged[..0] == [];
    assert !(UNTRIAGED <= "kept on purpose") by { assert UNTRIAGED[0] != "kept on purpose"[0]; }
    assert NamesOf(open) == {name} && NamesOf(triaged) == {name} by {
      assert open[0] in open && triaged[0] in triaged;
    }
  }

  lemma BurnsAppend(runs: seq<Run>, run: Run, n: int)
    ensures Burns(runs + [run], n) == Burns(runs, n) + if run.minBurn >= n then 1 else 0
  {
    var flags := Burning(runs + [run], n);
    assert flags[..|runs|] == Burning(runs, n);
  }

  lemma HistoryAppend(cs: seq<Commit>, runs: seq<Run>, c: Commit, run: Run)
    requires History(cs, runs) && LoadedCommits(cs) && LoadedCommit(c) && c.symbols.Some? && c.modules.Some?
    requires Accepted(cs[|runs|], c, run.touched, run.minBurn)
    ensures History(cs + [c], runs + [run]) && LoadedCommits(cs + [c])
  {
  }

  /** Commits in between that need not burn void the bound: relabelling a triaged entry as
      UNTRIAGED is accepted, so a pot of one entry can pay for any number of burns. */
  lemma {:induction false} RelabellingRefillsThePot(name: Dotted, m: nat) returns (cs: seq<Commit>, runs: seq<Run>)
    ensures History(cs, runs) && LoadedCommits(cs)
    ensures cs[0] == cs[|runs|] == OneUntriaged(name)
    ensures Untriaged(cs[0]) == 1 && Burns(runs, 1) == m
  {
    BackAndForth(name);
    if m == 0 {
      cs, runs := [OneUntriaged(name)], [];
    } else {
      var cs', runs' := RelabellingRefillsThePot(name, m - 1);
      HistoryAppend(cs', runs', OneTriaged(name), Run({}, 1));
      HistoryAppend(cs' + [OneTriaged(name)], runs' + [Run({}, 1)], OneUntriaged(name), Run({}, 0));
      BurnsAppend(runs', Run({}, 1), 1);
      BurnsAppend(runs' + [Run({}, 1)], Run({}, 0), 1);
      cs, runs := cs' + [OneTriaged(name)] + [OneUntriaged(name)], runs' + [Run({}, 1)] + [Run({}, 0)];
    }
  }
}
