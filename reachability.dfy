// Reachability analysis of grammar.py and the two simplifications built on it:
// removal of unreachable symbols and removal of useless symbols.

module Reachability {
  import opened Tokens
  import opened Cfg
  import opened Productivity

  /** Every symbol that occurs in some alternative. */
  ghost function Symbols(alts: seq<seq<Token>>): set<Token> {
    set alt, s | alt in alts && s in alt :: s
  }

  lemma SymbolsHas(alts: seq<seq<Token>>, alt: seq<Token>, t: Token)
    requires alt in alts && t in alt
    ensures t in Symbols(alts)
  {
  }

  lemma SymbolsSnoc(alts: seq<seq<Token>>, alt: seq<Token>)
    ensures Symbols(alts + [alt]) == Symbols(alts) + set s | s in alt
  {
    forall s | s in Symbols(alts + [alt])
      ensures s in Symbols(alts) || s in alt
    {
      var b :| b in alts + [alt] && s in b;
    }
  }

  /** The declared non-terminals in the alternatives of `a`. */
  ghost function Successors(g: CFG, a: Token): set<Token> {
    if a in g.rules then Symbols(g.rules[a]) * g.nonTerminals else {}
  }

  /** The declared terminals in the alternatives of `a`. */
  ghost function KeyTerminals(g: CFG, a: Token): set<Token> {
    if a in g.rules then Symbols(g.rules[a]) * g.terminals else {}
  }

  /** `r` holds the axiom and every successor of its members. */
  ghost predicate ReachClosed(g: CFG, r: set<Token>) {
    g.axiom in r && forall a :: a in r ==> Successors(g, a) <= r
  }

  ghost predicate BelowReachClosed(g: CFG, r: set<Token>) {
    forall q :: ReachClosed(g, q) ==> r <= q
  }

  /** Symbols that can ever be reachable. */
  ghost function Universe(g: CFG): set<Token> {
    g.nonTerminals + {g.axiom}
  }

  ghost function ReachStep(g: CFG, r: set<Token>): set<Token> {
    r + set s | s in g.nonTerminals && exists a :: a in r && s in Successors(g, a)
  }

  ghost function ReachableFrom(g: CFG, r: set<Token>): set<Token>
    requires r <= Universe(g)
    decreases |Universe(g) - r|
  {
    var next := ReachStep(g, r);
    if next == r then r
    else
      CardinalityShrinks(Universe(g), r, next);
      ReachableFrom(g, next)
  }

  /** The non-terminals reachable from the axiom (the axiom included). */
  ghost function Reachable(g: CFG): set<Token> {
    ReachableFrom(g, {g.axiom})
  }

  /** The declared terminals that occur in an alternative of a key in `r`. */
  ghost function ReachedTerminals(g: CFG, r: set<Token>): set<Token> {
    set t | t in g.terminals && exists a :: a in r && t in KeyTerminals(g, a)
  }

  lemma {:induction false} ReachableFromLeast(g: CFG, r: set<Token>)
    requires r <= Universe(g) && g.axiom in r
    requires BelowReachClosed(g, r)
    ensures ReachableFrom(g, r) <= Universe(g)
    ensures ReachClosed(g, ReachableFrom(g, r))
    ensures BelowReachClosed(g, ReachableFrom(g, r))
    decreases |Universe(g) - r|
  {
    var next := ReachStep(g, r);
    if next != r {
      CardinalityShrinks(Universe(g), r, next);
      forall q | ReachClosed(g, q)
        ensures next <= q
      {
        forall s | s in next
          ensures s in q
        {
          if s !in r {
            var a :| a in r && s in Successors(g, a);
          }
        }
      }
      ReachableFromLeast(g, next);
    }
  }

  /** The reachable set holds the axiom, is closed under successors, and lies
      below every such set. */
  lemma ReachableIsLeastClosed(g: CFG)
    ensures Reachable(g) <= Universe(g)
    ensures ReachClosed(g, Reachable(g))
    ensures BelowReachClosed(g, Reachable(g))
  {
    ReachableFromLeast(g, {g.axiom});
  }

  lemma LeastReachClosedIsReachable(g: CFG, r: set<Token>)
    requires ReachClosed(g, r) && BelowReachClosed(g, r)
    ensures r == Reachable(g)
  {
    ReachableIsLeastClosed(g);
  }

  /** The scan of one alternative: adds its terminals and its non-terminals. */
  method ScanAlternative(g: CFG, alt: seq<Token>, found: set<Token>, terminals: set<Token>)
    returns (found': set<Token>, terminals': set<Token>)
    ensures found' == found + (set s | s in alt) * g.nonTerminals
    ensures terminals' == terminals + (set s | s in alt) * g.terminals
  {
    found', terminals' := found, terminals;
    var j := 0;
    while j < |alt|
      invariant 0 <= j <= |alt|
      invariant found' == found + (set s | s in alt[..j]) * g.nonTerminals
      invariant terminals' == terminals + (set s | s in alt[..j]) * g.terminals
    {
      var symbol := alt[j];
      assert alt[..j + 1] == alt[..j] + [symbol];
      if symbol in g.terminals {
        terminals' := terminals' + {symbol};
      }
      if symbol in g.nonTerminals {
        found' := found' + {symbol};
      }
      j := j + 1;
    }
    assert alt[..j] == alt;
  }

  /** The scan of one key: adds the terminals and the non-terminals of its
      alternatives. */
  method ScanKey(g: CFG, a: Token, found: set<Token>, terminals: set<Token>)
    returns (found': set<Token>, terminals': set<Token>)
    requires a in g.rules
    ensures found' == found + Successors(g, a)
    ensures terminals' == terminals + KeyTerminals(g, a)
  {
    found', terminals' := found, terminals;
    var alts := g.rules[a];
    var i := 0;
    while i < |alts|
      invariant 0 <= i <= |alts|
      invariant found' == found + Symbols(alts[..i]) * g.nonTerminals
      invariant terminals' == terminals + Symbols(alts[..i]) * g.terminals
    {
      var alt := alts[i];
      found', terminals' := ScanAlternative(g, alt, found', terminals');
      assert alts[..i + 1] == alts[..i] + [alt];
      SymbolsSnoc(alts[..i], alt);
      i := i + 1;
    }
    assert alts[..i] == alts;
  }

  /** One pass of the `while True` loop: every key of the rules, in some order,
      is scanned when it is in the frontier, which grows as the pass goes. */
  method ScanPass(g: CFG, reached: set<Token>, start: set<Token>, terminals: set<Token>)
    returns (frontier: set<Token>, terminals': set<Token>)
    requires start <= Universe(g)
    requires forall q :: ReachClosed(g, q) ==> reached + start <= q
    requires terminals <= ReachedTerminals(g, reached + start)
    ensures start <= frontier <= Universe(g)
    ensures forall q :: ReachClosed(g, q) ==> reached + frontier <= q
    ensures forall a :: a in start ==> Successors(g, a) <= frontier && KeyTerminals(g, a) <= terminals'
    ensures terminals <= terminals' <= ReachedTerminals(g, reached + frontier)
  {
    frontier, terminals' := start, terminals;
    var left := g.rules.Keys;
    while left != {}
      invariant left <= g.rules.Keys
      invariant start <= frontier <= Universe(g)
      invariant forall q :: ReachClosed(g, q) ==> reached + frontier <= q
      invariant forall a :: a in start && a !in left ==> Successors(g, a) <= frontier
      invariant forall a :: a in start && a !in left ==> KeyTerminals(g, a) <= terminals'
      invariant terminals <= terminals' <= ReachedTerminals(g, reached + frontier)
      decreases left
    {
      var a :| a in left;
      if a in frontier {
        frontier, terminals' := ScanKey(g, a, frontier, terminals');
      }
      left := left - {a};
    }
    forall a | a in start && a !in g.rules
      ensures Successors(g, a) <= frontier && KeyTerminals(g, a) <= terminals'
    {
    }
  }

  /** The reachability loop of remove_unreachable_symbols: `reached` grows by the
      frontier found in each pass until a pass finds nothing new. */
  method ReachableSymbols(g: CFG) returns (reached: set<Token>, terminals: set<Token>)
    ensures reached == Reachable(g)
    ensures terminals == ReachedTerminals(g, reached)
  {
    reached := {g.axiom};
    var frontier := reached;
    terminals := {};
    while true
      invariant frontier <= reached <= Universe(g) && g.axiom in reached
      invariant BelowReachClosed(g, reached)
      invariant forall a :: a in reached && a !in frontier ==> Successors(g, a) <= reached
      invariant terminals <= ReachedTerminals(g, reached)
      invariant forall a :: a in reached && a !in frontier ==> KeyTerminals(g, a) <= terminals
      decreases |Universe(g) - reached|
    {
      frontier, terminals := ScanPass(g, reached, frontier, terminals);
      frontier := frontier - reached;
      if frontier == {} {
        break;
      }
      CardinalityShrinks(Universe(g), reached, reached + frontier);
      reached := reached + frontier;
    }
    LeastReachClosedIsReachable(g, reached);
    ReachedTerminalsComplete(g, reached, terminals);
  }

  lemma ReachedTerminalsComplete(g: CFG, r: set<Token>, terminals: set<Token>)
    requires terminals <= ReachedTerminals(g, r)
    requires forall a :: a in r ==> KeyTerminals(g, a) <= terminals
    ensures terminals == ReachedTerminals(g, r)
  {
  }

  /** What remove_unreachable_symbols returns: an equal copy when every
      non-terminal is reachable and every terminal is reached; otherwise the
      reachable non-terminals, the reached terminals and the rules of the
      reachable keys, with the epsilon rule given to a lone axiom. */
  ghost function WithoutUnreachable(g: CFG): CFG {
    var r := Reachable(g);
    var t := ReachedTerminals(g, r);
    if g.nonTerminals == r && g.terminals == t then g
    else
      var kept := map a | a in r && a in g.rules :: g.rules[a];
      var rules := if |r| == 1 && |t| == 0 && |kept| == 0 then map[g.axiom := [[Epsilon]]] else kept;
      CFG(r, t, rules, g.axiom)
  }

  /** remove_unreachable_symbols. */
  method RemoveUnreachableSymbols(g: CFG) returns (r: CFG)
    ensures r == WithoutUnreachable(g)
  {
    var reached, terminals := ReachableSymbols(g);
    if g.nonTerminals == reached && g.terminals == terminals {
      return g;
    }
    var newRules: map<Token, seq<seq<Token>>> := map[];
    var left := reached;
    while left != {}
      invariant left <= reached
      invariant newRules == map a | a in reached - left && a in g.rules :: g.rules[a]
      decreases left
    {
      var a :| a in left;
      if a in g.rules {
        newRules := newRules[a := g.rules[a]];
      }
      left := left - {a};
    }
    assert reached - left == reached;
    if |reached| == 1 && |terminals| == 0 && |newRules| == 0 {
      newRules := newRules[g.axiom := [[Epsilon]]];
    }
    return CFG(reached, terminals, newRules, g.axiom);
  }

  /** The result keeps the axiom, its non-terminals are the reachable ones, its
      terminals are the declared terminals reached from them, and every key it
      keeps has the rule list it had (or is the lone axiom given epsilon). */
  lemma WithoutUnreachableShape(g: CFG)
    ensures WithoutUnreachable(g).axiom == g.axiom
    ensures WithoutUnreachable(g).axiom in WithoutUnreachable(g).nonTerminals
    ensures WithoutUnreachable(g).nonTerminals == Reachable(g)
    ensures WithoutUnreachable(g).terminals == ReachedTerminals(g, Reachable(g))
    ensures forall a :: a in Reachable(g) && a in g.rules ==>
              a in WithoutUnreachable(g).rules && WithoutUnreachable(g).rules[a] == g.rules[a]
    ensures g.rules.Keys <= g.nonTerminals ==>
              WithoutUnreachable(g).rules.Keys <= Reachable(g) &&
              forall a :: a in WithoutUnreachable(g).rules ==>
                (a in g.rules && WithoutUnreachable(g).rules[a] == g.rules[a]) ||
                (a == g.axiom && WithoutUnreachable(g).rules[a] == [[Epsilon]])
  {
    ReachableIsLeastClosed(g);
  }

  /** Removing unreachable symbols twice changes nothing: the second call finds
      every non-terminal reachable and every terminal reached, and returns its
      input unchanged. */
  lemma WithoutUnreachableIdempotent(g: CFG)
    ensures Reachable(WithoutUnreachable(g)) == WithoutUnreachable(g).nonTerminals
    ensures ReachedTerminals(WithoutUnreachable(g), Reachable(WithoutUnreachable(g))) == WithoutUnreachable(g).terminals
    ensures WithoutUnreachable(WithoutUnreachable(g)) == WithoutUnreachable(g)
  {
    if WithoutUnreachable(g) != g {
      PrunedReachable(g);
      PrunedReached(g);
    }
  }

  /** After the pruning, the reachable non-terminals are the same. */
  lemma PrunedReachable(g: CFG)
    requires WithoutUnreachable(g) != g
    ensures Reachable(WithoutUnreachable(g)) == Reachable(g)
  {
    var r := Reachable(g);
    var h := WithoutUnreachable(g);
    ReachableIsLeastClosed(g);
    var kept := map a | a in r && a in g.rules :: g.rules[a];
    // In h, the successors of a reachable key are its successors in g.
    forall a | a in r
      ensures Successors(h, a) <= r
      ensures Successors(g, a) <= Successors(h, a) || a !in kept
    {
      if a in kept {
        assert a in h.rules && h.rules[a] == g.rules[a];
      }
    }
    assert ReachClosed(h, r);
    forall q | ReachClosed(h, q)
      ensures r <= q
    {
      var c := q * r;
      forall a | a in c
        ensures Successors(g, a) <= c
      {
        if a in kept {
          assert Successors(g, a) <= Successors(h, a);
        } else {
          assert a !in g.rules;
        }
      }
      assert ReachClosed(g, c);
    }
    LeastReachClosedIsReachable(h, r);
  }

  /** After the pruning, the terminals reached from the reachable non-terminals
      are the same. */
  lemma PrunedReached(g: CFG)
    requires WithoutUnreachable(g) != g
    ensures ReachedTerminals(WithoutUnreachable(g), Reachable(g)) == ReachedTerminals(g, Reachable(g))
  {
    var r := Reachable(g);
    var h := WithoutUnreachable(g);
    var t := ReachedTerminals(g, r);
    var kept := map a | a in r && a in g.rules :: g.rules[a];
    forall a | a in r
      ensures KeyTerminals(h, a) <= t
    {
      if a in kept {
        assert a in h.rules && h.rules[a] == g.rules[a];
      }
    }
    forall x | x in t
      ensures x in ReachedTerminals(h, r)
    {
      var a :| a in r && x in KeyTerminals(g, a);
      assert a in kept;
      assert KeyTerminals(h, a) == KeyTerminals(g, a) * t;
    }
  }

  /** What remove_useless_symbols returns: for an empty language the axiom alone
      with one empty alternative (the raw string '' of the source); otherwise the
      pruned grammar without unreachable symbols. */
  ghost function WithoutUseless(g: CFG): CFG {
    if g.axiom !in Productive(g) then CFG({g.axiom}, {}, map[g.axiom := [[]]], g.axiom)
    else WithoutUnreachable(Prune(g, Productive(g)))
  }

  /** remove_useless_symbols: productivity first, then reachability; the error of
      calling a method on None becomes the fallback branch. */
  method RemoveUselessSymbols(g: CFG) returns (r: CFG)
    ensures r == WithoutUseless(g)
  {
    var pruned := RemoveBadNonTerminalsAndRules(g);
    if pruned.None? {
      return CFG({g.axiom}, {}, map[g.axiom := [[]]], g.axiom);
    }
    r := RemoveUnreachableSymbols(pruned.value);
  }

  /** For a non-empty language every non-terminal left by remove_useless_symbols
      is productive and reachable in the result, and the axiom stays. */
  lemma WithoutUselessAllUseful(g: CFG)
    requires g.axiom in Productive(g)
    ensures WithoutUseless(g).axiom == g.axiom
    ensures WithoutUseless(g).nonTerminals <= Productive(WithoutUseless(g))
    ensures WithoutUseless(g).nonTerminals == Reachable(WithoutUseless(g))
  {
    var p := Productive(g);
    var h := Prune(g, p);
    PruneKeepsOnlyProductive(g);
    PruneAllProductive(g);
    ProductiveIsLeastClosed(g);
    WithoutUnreachableIdempotent(h);
    WithoutUnreachableShape(h);
    assert h.rules.Keys == p;
    RestrictKeepsProductive(h);
  }

  /** Keeping only the reachable keys of a grammar whose non-terminals are its
      productive rule keys leaves every kept non-terminal productive. */
  lemma RestrictKeepsProductive(h: CFG)
    requires h.nonTerminals == h.rules.Keys == Productive(h)
    requires h.axiom in h.nonTerminals
    ensures WithoutUnreachable(h).nonTerminals <= Productive(WithoutUnreachable(h))
  {
    var u := WithoutUnreachable(h);
    WithoutUnreachableShape(h);
    if u != h {
      var r := Reachable(h);
      ReachableIsLeastClosed(h);
      ProductiveIsLeastClosed(u);
      forall q | Closed(u, q)
        ensures r <= q
      {
        RestrictedClosedExtends(h, q);
      }
    } else {
      ProductiveIsLeastClosed(h);
    }
  }

  lemma RestrictedClosedExtends(h: CFG, q: set<Token>)
    requires h.nonTerminals == h.rules.Keys == Productive(h)
    requires h.axiom in h.nonTerminals
    requires WithoutUnreachable(h) != h
    requires Closed(WithoutUnreachable(h), q)
    ensures Reachable(h) <= q
  {
    var u := WithoutUnreachable(h);
    var p := h.nonTerminals;
    var r := Reachable(h);
    ReachableIsLeastClosed(h);
    WithoutUnreachableShape(h);
    ProductiveIsLeastClosed(h);
    var c := q + (p - r);
    forall b | HasGoodAlt(h, b, c)
      ensures b in c
    {
      var alt :| alt in h.rules[b] && Good(h, alt, c);
      if b in r {
        GoodAltSurvives(h, b, alt, q);
      }
    }
    assert Closed(h, c);
  }

  lemma GoodAltSurvives(h: CFG, b: Token, alt: seq<Token>, q: set<Token>)
    requires h.nonTerminals == h.rules.Keys
    requires WithoutUnreachable(h) != h
    requires b in Reachable(h) && b in h.rules && alt in h.rules[b]
    requires Good(h, alt, q + (h.nonTerminals - Reachable(h)))
    requires Closed(WithoutUnreachable(h), q)
    ensures b in q
  {
    var u := WithoutUnreachable(h);
    var r := Reachable(h);
    ReachableIsLeastClosed(h);
    WithoutUnreachableShape(h);
    assert b in u.rules && u.rules[b] == h.rules[b];
    forall s | s in alt
      ensures s in u.terminals || s in q
    {
      assert s in Symbols(h.rules[b]);
      if s in h.terminals {
        assert s in KeyTerminals(h, b);
      } else {
        assert s in h.nonTerminals ==> s in Successors(h, b);
      }
    }
    assert Good(u, alt, q);
  }

  // Two grammars of the repository's tests of remove_useless_symbols.

  /** S -> 0 | 1 | 0S | 1S: nothing is useless. */
  function BinaryExample(): CFG {
    var s, zero, one := CharToken("S"), CharToken("0"), CharToken("1");
    CFG({s}, {zero, one}, map[s := [[zero], [one], [zero, s], [one, s]]], s)
  }

  lemma BinaryExampleProductive()
    ensures Productive(BinaryExample()) == {CharToken("S")}
  {
    var g, s := BinaryExample(), CharToken("S");
    forall q | Closed(g, q)
      ensures {s} <= q
    {
      assert Good(g, [CharToken("0")], q);
      assert HasGoodAlt(g, s, q);
    }
    LeastClosedIsProductive(g, {s});
  }

  lemma BinaryExamplePruned()
    ensures Prune(BinaryExample(), {CharToken("S")}) == BinaryExample()
  {
    var g, s := BinaryExample(), CharToken("S");
    FilterGoodKeepsAll(g, g.rules[s], {s});
    assert Prune(g, {s}).rules == g.rules;
  }

  lemma BinaryExampleReachable()
    ensures Reachable(BinaryExample()) == {CharToken("S")}
    ensures ReachedTerminals(BinaryExample(), {CharToken("S")}) == {CharToken("0"), CharToken("1")}
  {
    var g, s := BinaryExample(), CharToken("S");
    assert Successors(g, s) <= {s};
    LeastReachClosedIsReachable(g, {s});
    SymbolsHas(g.rules[s], [CharToken("0")], CharToken("0"));
    SymbolsHas(g.rules[s], [CharToken("1")], CharToken("1"));
  }

  /** remove_useless_symbols leaves S -> 0 | 1 | 0S | 1S as it is. */
  lemma BinaryExampleUnchanged()
    ensures WithoutUseless(BinaryExample()) == BinaryExample()
  {
    BinaryExampleProductive();
    BinaryExamplePruned();
    BinaryExampleReachable();
  }

  /** S -> a | A, A -> AB, B -> b: A never terminates and B is then
      unreachable. */
  function DeadEndExample(): CFG {
    var s, a, b, x, y := CharToken("S"), CharToken("A"), CharToken("B"), CharToken("a"), CharToken("b");
    CFG({s, a, b}, {x, y}, map[s := [[x], [a]], a := [[a, b]], b := [[y]]], s)
  }

  /** What remains: S -> a. */
  function DeadEndRemains(): CFG {
    var s, x := CharToken("S"), CharToken("a");
    CFG({s}, {x}, map[s := [[x]]], s)
  }

  lemma DeadEndNamesDiffer()
    ensures CharToken("A") !in {CharToken("S"), CharToken("B"), CharToken("a"), CharToken("b")}
  {
    assert "A"[0] != "S"[0] && "A"[0] != "B"[0] && "A"[0] != "a"[0] && "A"[0] != "b"[0];
  }

  lemma DeadEndProductive()
    ensures Productive(DeadEndExample()) == {CharToken("S"), CharToken("B")}
  {
    var g, s, a, b := DeadEndExample(), CharToken("S"), CharToken("A"), CharToken("B");
    var p := {s, b};
    assert !HasGoodAlt(g, a, p) by {
      DeadEndNamesDiffer();
      assert a in [a, b];
    }
    forall q | Closed(g, q)
      ensures p <= q
    {
      assert Good(g, [CharToken("a")], q) && Good(g, [CharToken("b")], q);
      assert HasGoodAlt(g, s, q) && HasGoodAlt(g, b, q);
    }
    LeastClosedIsProductive(g, p);
  }

  lemma DeadEndPruned()
    ensures var s, b := CharToken("S"), CharToken("B");
      Prune(DeadEndExample(), {s, b}) ==
        CFG({s, b}, {CharToken("a"), CharToken("b")}, map[s := [[CharToken("a")]], b := [[CharToken("b")]]], s)
  {
    var g, s, a, b := DeadEndExample(), CharToken("S"), CharToken("A"), CharToken("B");
    var p := {s, b};
    assert FilterGood(g, g.rules[s], p) == [[CharToken("a")]] by {
      DeadEndNamesDiffer();
      assert a in [a];
      assert g.rules[s][1..] == [[a]];
    }
    assert FilterGood(g, g.rules[b], p) == [[CharToken("b")]];
  }

  lemma DeadEndReachable(h: CFG)
    requires var s, b := CharToken("S"), CharToken("B");
      h == CFG({s, b}, {CharToken("a"), CharToken("b")}, map[s := [[CharToken("a")]], b := [[CharToken("b")]]], s)
    ensures Reachable(h) == {CharToken("S")}
    ensures ReachedTerminals(h, {CharToken("S")}) == {CharToken("a")}
  {
    var s := CharToken("S");
    assert Symbols(h.rules[s]) == {CharToken("a")} by {
      SymbolsHas(h.rules[s], [CharToken("a")], CharToken("a"));
    }
    assert Successors(h, s) == {};
    LeastReachClosedIsReachable(h, {s});
    assert KeyTerminals(h, s) == {CharToken("a")};
  }

  lemma DeadEndUnreachableRemoved(h: CFG)
    requires var s, b := CharToken("S"), CharToken("B");
      h == CFG({s, b}, {CharToken("a"), CharToken("b")}, map[s := [[CharToken("a")]], b := [[CharToken("b")]]], s)
    ensures WithoutUnreachable(h) == DeadEndRemains()
  {
    DeadEndReachable(h);
    assert WithoutUnreachable(h).rules == DeadEndRemains().rules;
  }

  /** remove_useless_symbols turns S -> a | A, A -> AB, B -> b into S -> a. */
  lemma DeadEndRemoved()
    ensures WithoutUseless(DeadEndExample()) == DeadEndRemains()
  {
    var s, b := CharToken("S"), CharToken("B");
    DeadEndProductive();
    DeadEndPruned();
    DeadEndUnreachableRemoved(Prune(DeadEndExample(), {s, b}));
  }
}
