// The older string-based grammar of main.py. A symbol is a string; an
// alternative is either a Python string, whose symbols are its characters, or a
// list of strings (the form remove_left_recursion builds so that a primed
// non-terminal such as "A'" stays one symbol).

module Legacy {
  import opened Cfg
  import Productivity

  /** A right-hand side as main.py stores it. */
  datatype Alt = Str(s: string) | Lst(items: seq<string>)

  /** The symbols a `for` loop over the alternative visits: the characters of a
      string, the elements of a list. */
  function Symbols(alt: Alt): seq<string> {
    match alt
    case Str(s) => seq(|s|, i requires 0 <= i < |s| => [s[i]])
    case Lst(items) => items
  }

  /** The grammar value: the source keeps the caller's sets and dictionary. */
  datatype Grammar = Grammar(
    nonTerminals: set<string>,
    terminals: set<string>,
    rules: map<string, seq<Alt>>,
    axiom: string)

  /** Grammar.__init__: only the axiom and the rule keys are checked. */
  function NewGrammar(nonTerminals: set<string>, terminals: set<string>, rules: map<string, seq<Alt>>, axiom: string)
    : (r: Result<Grammar>)
    ensures r.Ok? <==> axiom in nonTerminals && rules.Keys <= nonTerminals
    ensures axiom !in nonTerminals ==> r == Err(AxiomNotNonTerminal)
    ensures axiom in nonTerminals && !(rules.Keys <= nonTerminals) ==> r == Err(KeyNotNonTerminal)
    ensures r.Ok? ==> r.value.rules == rules && r.value.terminals == terminals
  {
    if axiom !in nonTerminals then Err(AxiomNotNonTerminal)
    else if !(rules.Keys <= nonTerminals) then Err(KeyNotNonTerminal)
    else Ok(Grammar(nonTerminals, terminals, rules, axiom))
  }

  /** Right-hand sides are not checked: a rule may use a symbol that is neither
      a terminal nor a non-terminal and construction still succeeds. */
  lemma UndeclaredSymbolAccepted()
    ensures var r := NewGrammar({"S"}, {"a"}, map["S" := [Str("ab")]], "S");
      r.Ok? && "b" in Symbols(r.value.rules["S"][0]) && "b" !in r.value.terminals + r.value.nonTerminals
  {
    assert Symbols(Str("ab"))[1] == "b";
  }

  /** Grammar.__eq__: every component equal, rule lists compared in order and a
      string never equal to a list. */
  predicate Equal(g: Grammar, h: Grammar) {
    g.nonTerminals == h.nonTerminals && g.terminals == h.terminals && g.rules == h.rules && g.axiom == h.axiom
  }

  /** Equality is sensitive to the order of alternatives and to the form of an
      alternative, unlike the multiset comparison of the token grammar. */
  lemma EqualSeesOrderAndForm()
    ensures !Equal(Grammar({"S"}, {"a", "b"}, map["S" := [Str("a"), Str("b")]], "S"),
                   Grammar({"S"}, {"a", "b"}, map["S" := [Str("b"), Str("a")]], "S"))
    ensures Symbols(Str("ab")) == Symbols(Lst(["a", "b"]))
    ensures !Equal(Grammar({"S"}, {"a", "b"}, map["S" := [Str("ab")]], "S"),
                   Grammar({"S"}, {"a", "b"}, map["S" := [Lst(["a", "b"])]], "S"))
  {
    var left := map["S" := [Str("a"), Str("b")]];
    var right := map["S" := [Str("b"), Str("a")]];
    assert left["S"] != right["S"];
    assert Symbols(Str("ab")) == ["a", "b"];
    var str := map["S" := [Str("ab")]];
    var lst := map["S" := [Lst(["a", "b"])]];
    assert str["S"] != lst["S"];
  }

  /** is_contain_nn: the alternative is not empty and each of its symbols is a
      terminal or in `symbols`. */
  predicate IsContainNN(g: Grammar, alt: Alt, symbols: set<string>) {
    Symbols(alt) != [] && forall x :: x in Symbols(alt) ==> x in g.terminals || x in symbols
  }

  lemma IsContainNNMonotone(g: Grammar, alt: Alt, p: set<string>, q: set<string>)
    requires p <= q
    ensures IsContainNN(g, alt, p) ==> IsContainNN(g, alt, q)
  {
  }

  // Productivity.

  ghost predicate HasGoodAlt(g: Grammar, a: string, p: set<string>) {
    a in g.rules && exists alt :: alt in g.rules[a] && IsContainNN(g, alt, p)
  }

  ghost predicate Closed(g: Grammar, p: set<string>) {
    forall a :: HasGoodAlt(g, a, p) ==> a in p
  }

  ghost predicate BelowClosed(g: Grammar, p: set<string>) {
    forall q :: Closed(g, q) ==> p <= q
  }

  ghost function Step(g: Grammar, p: set<string>): set<string> {
    p + set a | a in g.rules.Keys && HasGoodAlt(g, a, p)
  }

  ghost function ProductiveFrom(g: Grammar, p: set<string>): set<string>
    requires p <= g.rules.Keys
    decreases |g.rules.Keys - p|
  {
    var next := Step(g, p);
    if next == p then p
    else
      Productivity.CardinalityShrinks(g.rules.Keys, p, next);
      ProductiveFrom(g, next)
  }

  /** The productive non-terminals: the least closed set. */
  ghost function Productive(g: Grammar): set<string> {
    ProductiveFrom(g, {})
  }

  lemma {:induction false} ProductiveFromLeast(g: Grammar, p: set<string>)
    requires p <= g.rules.Keys
    requires BelowClosed(g, p)
    ensures ProductiveFrom(g, p) <= g.rules.Keys
    ensures Closed(g, ProductiveFrom(g, p))
    ensures BelowClosed(g, ProductiveFrom(g, p))
    decreases |g.rules.Keys - p|
  {
    var next := Step(g, p);
    if next != p {
      Productivity.CardinalityShrinks(g.rules.Keys, p, next);
      forall q | Closed(g, q)
        ensures next <= q
      {
        forall a | a in next
          ensures a in q
        {
          if a !in p {
            var alt :| alt in g.rules[a] && IsContainNN(g, alt, p);
            IsContainNNMonotone(g, alt, p, q);
          }
        }
      }
      ProductiveFromLeast(g, next);
    }
  }

  /** The productive set is made of rule keys, is closed and lies below every
      closed set. */
  lemma ProductiveIsLeastClosed(g: Grammar)
    ensures Productive(g) <= g.rules.Keys
    ensures Closed(g, Productive(g))
    ensures BelowClosed(g, Productive(g))
  {
    ProductiveFromLeast(g, {});
  }

  /** Those three properties determine the productive set. */
  lemma LeastClosedIsProductive(g: Grammar, p: set<string>)
    requires Closed(g, p) && BelowClosed(g, p)
    ensures p == Productive(g)
  {
    ProductiveIsLeastClosed(g);
  }

  /** get_good_non_terminals: passes over the rules, each adding every key with
      an alternative good with respect to the set so far, until a pass adds
      nothing. */
  method GoodNonTerminals(g: Grammar) returns (good: set<string>)
    ensures good <= g.rules.Keys
    ensures Closed(g, good)
    ensures BelowClosed(g, good)
    ensures good == Productive(g)
  {
    var nonTerminals: set<string> := {};
    good := nonTerminals;
    while true
      invariant good == nonTerminals
      invariant good <= g.rules.Keys
      invariant BelowClosed(g, good)
      decreases |g.rules.Keys - good|
    {
      var left := g.rules.Keys;
      while left != {}
        invariant left <= g.rules.Keys
        invariant good <= nonTerminals <= g.rules.Keys
        invariant BelowClosed(g, nonTerminals)
        invariant forall a :: a in g.rules && a !in left && a !in nonTerminals ==>
                    forall alt :: alt in g.rules[a] ==> !IsContainNN(g, alt, good)
        decreases left
      {
        var a :| a in left;
        var alternatives := g.rules[a];
        var i := 0;
        while i < |alternatives|
          invariant 0 <= i <= |alternatives|
          invariant forall j :: 0 <= j < i ==> !IsContainNN(g, alternatives[j], nonTerminals)
        {
          if IsContainNN(g, alternatives[i], nonTerminals) {
            forall q | Closed(g, q)
              ensures nonTerminals + {a} <= q
            {
              IsContainNNMonotone(g, alternatives[i], nonTerminals, q);
            }
            nonTerminals := nonTerminals + {a};
            break;
          }
          i := i + 1;
        }
        forall alt | alt in alternatives && a !in nonTerminals
          ensures !IsContainNN(g, alt, good)
        {
          IsContainNNMonotone(g, alt, good, nonTerminals);
        }
        left := left - {a};
      }
      if nonTerminals == good {
        break;
      }
      Productivity.CardinalityShrinks(g.rules.Keys, good, nonTerminals);
      good := nonTerminals;
    }
    LeastClosedIsProductive(g, good);
  }

  /** is_not_empty. */
  method IsNotEmpty(g: Grammar) returns (nonEmpty: bool)
    ensures nonEmpty <==> g.axiom in Productive(g)
  {
    var good := GoodNonTerminals(g);
    nonEmpty := g.axiom in good;
  }

  /** An alternative that is the empty string is never productive, so a key
      whose only alternatives are empty strings lies outside the productive set. */
  lemma EmptyStringUnproductive(g: Grammar, a: string)
    requires a in g.rules
    requires forall alt :: alt in g.rules[a] ==> Symbols(alt) == []
    ensures a !in Productive(g)
  {
    var p := Productive(g);
    ProductiveIsLeastClosed(g);
    var q := p - {a};
    assert !HasGoodAlt(g, a, q);
    forall b | HasGoodAlt(g, b, q)
      ensures b in q
    {
      var alt :| alt in g.rules[b] && IsContainNN(g, alt, q);
      IsContainNNMonotone(g, alt, q, p);
    }
    assert Closed(g, q);
  }

  /** The order-preserving filter of the alternatives good with respect to `p`. */
  function FilterNN(g: Grammar, alts: seq<Alt>, p: set<string>): (r: seq<Alt>)
    ensures forall alt :: alt in r <==> alt in alts && IsContainNN(g, alt, p)
  {
    if alts == [] then []
    else if IsContainNN(g, alts[0], p) then [alts[0]] + FilterNN(g, alts[1..], p)
    else FilterNN(g, alts[1..], p)
  }

  lemma {:induction false} FilterNNSnoc(g: Grammar, alts: seq<Alt>, alt: Alt, p: set<string>)
    ensures FilterNN(g, alts + [alt], p) == FilterNN(g, alts, p) + (if IsContainNN(g, alt, p) then [alt] else [])
  {
    if alts != [] {
      assert (alts + [alt])[1..] == alts[1..] + [alt];
      FilterNNSnoc(g, alts[1..], alt, p);
    }
  }

  /** The productive non-terminals, the unchanged terminals, the rules of the
      productive keys filtered to their good alternatives, the axiom. */
  ghost function Prune(g: Grammar, p: set<string>): Grammar {
    Grammar(p, g.terminals, map a | a in g.rules && a in p :: FilterNN(g, g.rules[a], p), g.axiom)
  }

  /** remove_bad_non_terminals_and_rules: None exactly when the axiom is
      unproductive. */
  method RemoveBadNonTerminalsAndRules(g: Grammar) returns (r: Option<Grammar>)
    ensures r.None? <==> g.axiom !in Productive(g)
    ensures r.Some? ==> r.value == Prune(g, Productive(g))
  {
    var good := GoodNonTerminals(g);
    if g.axiom !in good {
      return None;
    }
    var rulesCopy := g.rules;
    var left := g.rules.Keys;
    while left != {}
      invariant left <= g.rules.Keys
      invariant rulesCopy.Keys == left + (g.rules.Keys - left) * good
      invariant forall a :: a in left ==> rulesCopy[a] == g.rules[a]
      invariant forall a :: a in g.rules && a !in left && a in good ==> rulesCopy[a] == FilterNN(g, g.rules[a], good)
      decreases left
    {
      var a :| a in left;
      if a !in good {
        rulesCopy := rulesCopy - {a};
      } else {
        var buffer := KeepGood(g, g.rules[a], good);
        rulesCopy := rulesCopy[a := buffer];
      }
      left := left - {a};
    }
    return Some(Grammar(good, g.terminals, rulesCopy, g.axiom));
  }

  /** The buffer of the alternatives of one key made of terminals and good
      non-terminals, in their order. */
  method KeepGood(g: Grammar, alts: seq<Alt>, good: set<string>) returns (buffer: seq<Alt>)
    ensures buffer == FilterNN(g, alts, good)
  {
    buffer := [];
    var i := 0;
    while i < |alts|
      invariant 0 <= i <= |alts|
      invariant buffer == FilterNN(g, alts[..i], good)
    {
      FilterNNSnoc(g, alts[..i], alts[i], good);
      assert alts[..i + 1] == alts[..i] + [alts[i]];
      if IsContainNN(g, alts[i], good) {
        buffer := buffer + [alts[i]];
      }
      i := i + 1;
    }
    assert alts[..i] == alts;
  }

  /** Pruning keeps every productive non-terminal productive and keeps only
      productive keys. */
  lemma PruneKeepsOnlyProductive(g: Grammar)
    ensures Prune(g, Productive(g)).rules.Keys <= Productive(g)
    ensures Prune(g, Productive(g)).nonTerminals == Productive(g)
    ensures forall a, alt :: a in Prune(g, Productive(g)).rules && alt in Prune(g, Productive(g)).rules[a] ==>
              IsContainNN(g, alt, Productive(g))
  {
  }

  // Reachability.

  ghost function SymbolSet(alts: seq<Alt>): set<string> {
    set alt, s | alt in alts && s in Symbols(alt) :: s
  }

  lemma SymbolSetSnoc(alts: seq<Alt>, alt: Alt)
    ensures SymbolSet(alts + [alt]) == SymbolSet(alts) + set s | s in Symbols(alt)
  {
    forall s | s in SymbolSet(alts + [alt])
      ensures s in SymbolSet(alts) || s in Symbols(alt)
    {
      var a :| a in alts + [alt] && s in Symbols(a);
    }
  }

  /** Scanning one more alternative adds its symbols of the scanned kind. */
  lemma ScanAccumulates(alts: seq<Alt>, alt: Alt, kind: set<string>, base: set<string>, before: set<string>, after: set<string>)
    requires before == base + SymbolSet(alts) * kind
    requires after == before + (set s | s in Symbols(alt)) * kind
    ensures after == base + SymbolSet(alts + [alt]) * kind
  {
    SymbolSetSnoc(alts, alt);
  }

  ghost function Successors(g: Grammar, a: string): set<string> {
    if a in g.rules then SymbolSet(g.rules[a]) * g.nonTerminals else {}
  }

  ghost function KeyTerminals(g: Grammar, a: string): set<string> {
    if a in g.rules then SymbolSet(g.rules[a]) * g.terminals else {}
  }

  ghost predicate ReachClosed(g: Grammar, r: set<string>) {
    g.axiom in r && forall a :: a in r ==> Successors(g, a) <= r
  }

  ghost predicate BelowReachClosed(g: Grammar, r: set<string>) {
    forall q :: ReachClosed(g, q) ==> r <= q
  }

  ghost function Universe(g: Grammar): set<string> {
    g.nonTerminals + {g.axiom}
  }

  ghost function ReachStep(g: Grammar, r: set<string>): set<string> {
    r + set s | s in g.nonTerminals && exists a :: a in r && s in Successors(g, a)
  }

  ghost function ReachableFrom(g: Grammar, r: set<string>): set<string>
    requires r <= Universe(g)
    decreases |Universe(g) - r|
  {
    var next := ReachStep(g, r);
    if next == r then r
    else
      Productivity.CardinalityShrinks(Universe(g), r, next);
      ReachableFrom(g, next)
  }

  /** The non-terminals reachable from the axiom, the axiom included. */
  ghost function Reachable(g: Grammar): set<string> {
    ReachableFrom(g, {g.axiom})
  }

  /** The declared terminals in the alternatives of the keys in `r`. */
  ghost function ReachedTerminals(g: Grammar, r: set<string>): set<string> {
    set t | t in g.terminals && exists a :: a in r && t in KeyTerminals(g, a)
  }

  lemma {:induction false} ReachableFromLeast(g: Grammar, r: set<string>)
    requires r <= Universe(g) && g.axiom in r
    requires BelowReachClosed(g, r)
    ensures ReachClosed(g, ReachableFrom(g, r))
    ensures BelowReachClosed(g, ReachableFrom(g, r))
    ensures ReachableFrom(g, r) <= Universe(g)
    decreases |Universe(g) - r|
  {
    var next := ReachStep(g, r);
    if next != r {
      Productivity.CardinalityShrinks(Universe(g), r, next);
      forall q | ReachClosed(g, q)
        ensures next <= q
      {
        forall s | s in next
          ensures s in q
        {
          if s !in r {
            var a :| a in r && s in Successors(g, a);
          }
        }
      }
      ReachableFromLeast(g, next);
    }
  }

  /** The reachable set holds the axiom, is closed under successors, and lies
      below every such set. */
  lemma ReachableIsLeastClosed(g: Grammar)
    ensures ReachClosed(g, Reachable(g))
    ensures BelowReachClosed(g, Reachable(g))
    ensures Reachable(g) <= Universe(g)
  {
    ReachableFromLeast(g, {g.axiom});
  }

  /** The scan of one key: its symbols that are terminals and non-terminals. */
  method ScanKey(g: Grammar, a: string, found: set<string>, terminals: set<string>)
    returns (found': set<string>, terminals': set<string>)
    requires a in g.rules
    ensures found' == found + Successors(g, a)
    ensures terminals' == terminals + KeyTerminals(g, a)
  {
    found', terminals' := found, terminals;
    var alts := g.rules[a];
    var i := 0;
    while i < |alts|
      invariant 0 <= i <= |alts|
      invariant found' == found + SymbolSet(alts[..i]) * g.nonTerminals
      invariant terminals' == terminals + SymbolSet(alts[..i]) * g.terminals
    {
      ghost var seen := alts[..i];
      var f, t := ScanSymbols(g, Symbols(alts[i]), found', terminals');
      ScanAccumulates(seen, alts[i], g.nonTerminals, found, found', f);
      ScanAccumulates(seen, alts[i], g.terminals, terminals, terminals', t);
      assert alts[..i + 1] == seen + [alts[i]];
      found', terminals' := f, t;
      i := i + 1;
    }
    assert alts[..i] == alts;
  }

  /** Those properties determine the reachable set. */
  lemma LeastReachClosedIsReachable(g: Grammar, r: set<string>)
    requires ReachClosed(g, r) && BelowReachClosed(g, r)
    ensures r == Reachable(g)
  {
    ReachableIsLeastClosed(g);
  }

  /** The innermost loop: the symbols of one alternative that are terminals and
      non-terminals. */
  method ScanSymbols(g: Grammar, symbols: seq<string>, found: set<string>, terminals: set<string>)
    returns (found': set<string>, terminals': set<string>)
    ensures found' == found + (set s | s in symbols) * g.nonTerminals
    ensures terminals' == terminals + (set s | s in symbols) * g.terminals
  {
    found', terminals' := found, terminals;
    var j := 0;
    while j < |symbols|
      invariant 0 <= j <= |symbols|
      invariant found' == found + (set s | s in symbols[..j]) * g.nonTerminals
      invariant terminals' == terminals + (set s | s in symbols[..j]) * g.terminals
    {
      var c := symbols[j];
      assert symbols[..j + 1] == symbols[..j] + [c];
      if c in g.terminals {
        terminals' := terminals' + {c};
      }
      if c in g.nonTerminals {
        found' := found' + {c};
      }
      j := j + 1;
    }
    assert symbols[..j] == symbols;
  }

  /** One pass of the `while True` loop: every key of the rules, in some order,
      is scanned when it is in the frontier, which grows as the pass goes. */
  method ScanPass(g: Grammar, reached: set<string>, start: set<string>, terminals: set<string>)
    returns (frontier: set<string>, terminals': set<string>)
    requires start <= Universe(g)
    requires forall q :: ReachClosed(g, q) ==> reached + start <= q
    requires terminals <= ReachedTerminals(g, reached + start)
    ensures start <= frontier <= Universe(g)
    ensures forall q :: ReachClosed(g, q) ==> reached + frontier <= q
    ensures forall a :: a in start ==> Successors(g, a) <= frontier && KeyTerminals(g, a) <= terminals'
    ensures terminals <= terminals' <= ReachedTerminals(g, reached + frontier)
  {
    frontier, terminals' := start, terminals;
    var left := g.rules.Keys;
    while left != {}
      invariant left <= g.rules.Keys
      invariant start <= frontier <= Universe(g)
      invariant forall q :: ReachClosed(g, q) ==> reached + frontier <= q
      invariant forall a :: a in start && a !in left ==> Successors(g, a) <= frontier
      invariant forall a :: a in start && a !in left ==> KeyTerminals(g, a) <= terminals'
      invariant terminals <= terminals' <= ReachedTerminals(g, reached + frontier)
      decreases left
    {
      var a :| a in left;
      if a in frontier {
        frontier, terminals' := ScanKey(g, a, frontier, terminals');
      }
      left := left - {a};
    }
    forall a | a in start && a !in g.rules
      ensures Successors(g, a) <= frontier && KeyTerminals(g, a) <= terminals'
    {
    }
  }

  /** The reachability loop of remove_unreachable_symbols. */
  method ReachableSymbols(g: Grammar) returns (reached: set<string>, terminals: set<string>)
    ensures reached == Reachable(g)
    ensures terminals == ReachedTerminals(g, reached)
  {
    reached := {g.axiom};
    var frontier := reached;
    terminals := {};
    while true
      invariant frontier <= reached <= Universe(g) && g.axiom in reached
      invariant BelowReachClosed(g, reached)
      invariant forall a :: a in reached && a !in frontier ==> Successors(g, a) <= reached
      invariant terminals <= ReachedTerminals(g, reached)
      invariant forall a :: a in reached && a !in frontier ==> KeyTerminals(g, a) <= terminals
      decreases |Universe(g) - reached|
    {
      var start := frontier;
      frontier, terminals := ScanPass(g, reached, frontier, terminals);
      frontier := frontier - reached;
      if frontier == {} {
        break;
      }
      Productivity.CardinalityShrinks(Universe(g), reached, reached + frontier);
      reached := reached + frontier;
    }
    LeastReachClosedIsReachable(g, reached);
    ReachedTerminalsComplete(g, reached, terminals);
  }

  lemma ReachedTerminalsComplete(g: Grammar, r: set<string>, terminals: set<string>)
    requires terminals <= ReachedTerminals(g, r)
    requires forall a :: a in r ==> KeyTerminals(g, a) <= terminals
    ensures terminals == ReachedTerminals(g, r)
  {
  }

  /** What main.py's remove_unreachable_symbols returns: the rules unchanged
      when every non-terminal is reachable, otherwise the rules of reachable
      keys; the terminals narrowed to the reached ones in both cases. */
  ghost function WithoutUnreachable(g: Grammar): Grammar {
    var r := Reachable(g);
    var t := ReachedTerminals(g, r);
    if g.nonTerminals == r then Grammar(g.nonTerminals, t, g.rules, g.axiom)
    else Grammar(r, t, map a | a in r && a in g.rules :: g.rules[a], g.axiom)
  }

  /** remove_unreachable_symbols. */
  method RemoveUnreachableSymbols(g: Grammar) returns (r: Grammar)
    ensures r == WithoutUnreachable(g)
  {
    var reached, terminals := ReachableSymbols(g);
    if g.nonTerminals == reached {
      return Grammar(g.nonTerminals, terminals, g.rules, g.axiom);
    }
    var newRules: map<string, seq<Alt>> := map[];
    var left := reached;
    while left != {}
      invariant left <= reached
      invariant newRules == map a | a in reached - left && a in g.rules :: g.rules[a]
      decreases left
    {
      var a :| a in left;
      if a in g.rules {
        newRules := newRules[a := g.rules[a]];
      }
      left := left - {a};
    }
    assert reached - left == reached;
    return Grammar(reached, terminals, newRules, g.axiom);
  }

  /** The result keeps the axiom among its non-terminals, which are exactly the
      reachable ones when the axiom is declared; its terminals are the reached
      ones even when nothing is removed; every rule list it has is the input's
      list for that key, so no epsilon rule is ever added. */
  lemma WithoutUnreachableShape(g: Grammar)
    requires g.axiom in g.nonTerminals
    ensures var h := WithoutUnreachable(g);
      && h.axiom == g.axiom
      && h.nonTerminals == Reachable(g) && g.axiom in h.nonTerminals
      && h.terminals == ReachedTerminals(g, Reachable(g)) && h.terminals <= g.terminals
      && (forall a :: a in h.rules ==> a in g.rules && h.rules[a] == g.rules[a])
      && (forall a :: a in Reachable(g) && a in g.rules ==> a in h.rules)
  {
    ReachableIsLeastClosed(g);
  }

  /** remove_useless_symbols: None for an empty language (the call on None
      raises and the handler returns None), otherwise pruning followed by
      reachability. */
  ghost function WithoutUseless(g: Grammar): Option<Grammar> {
    if g.axiom !in Productive(g) then None
    else Some(WithoutUnreachable(Prune(g, Productive(g))))
  }

  method RemoveUselessSymbols(g: Grammar) returns (r: Option<Grammar>)
    ensures r == WithoutUseless(g)
    ensures r.None? <==> g.axiom !in Productive(g)
  {
    var pruned := RemoveBadNonTerminalsAndRules(g);
    if pruned.None? {
      return None;
    }
    var reduced := RemoveUnreachableSymbols(pruned.value);
    return Some(reduced);
  }

  /** For a non-empty language every alternative left by remove_useless_symbols
      is made of terminals and productive non-terminals of the input, and the
      result's non-terminals are all productive and reachable in the pruned
      grammar. */
  lemma WithoutUselessShape(g: Grammar)
    requires g.axiom in Productive(g)
    ensures var h := WithoutUseless(g).value;
      && h.axiom == g.axiom && h.axiom in h.nonTerminals
      && h.nonTerminals <= Productive(g)
      && h.terminals <= g.terminals
      && (forall a, alt :: a in h.rules && alt in h.rules[a] ==> IsContainNN(g, alt, Productive(g)))
  {
    var p := Prune(g, Productive(g));
    ProductiveIsLeastClosed(g);
    WithoutUnreachableShape(p);
    ReachableIsLeastClosed(p);
  }
}
