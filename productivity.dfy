// Productivity analysis of grammar.py: the non-terminals that derive a string
// of terminals, computed as a least fixpoint, the emptiness test, and the
// removal of unproductive non-terminals and alternatives.

module Productivity {
  import opened Tokens
  import opened Cfg

  /** Rule key `a` has an alternative that is good with respect to `p`. */
  ghost predicate HasGoodAlt(g: CFG, a: Token, p: set<Token>) {
    a in g.rules && exists alt :: alt in g.rules[a] && Good(g, alt, p)
  }

  /** `p` is closed: every key with an alternative good with respect to `p` is in `p`. */
  ghost predicate Closed(g: CFG, p: set<Token>) {
    forall a :: HasGoodAlt(g, a, p) ==> a in p
  }

  /** `p` lies below every closed set. */
  ghost predicate BelowClosed(g: CFG, p: set<Token>) {
    forall q :: Closed(g, q) ==> p <= q
  }

  /** One round of the analysis: add every key that has a good alternative. */
  ghost function Step(g: CFG, p: set<Token>): set<Token> {
    p + set a | a in g.rules.Keys && HasGoodAlt(g, a, p)
  }

  /** Rounds from `p` until nothing is added. */
  ghost function ProductiveFrom(g: CFG, p: set<Token>): set<Token>
    requires p <= g.rules.Keys
    decreases |g.rules.Keys - p|
  {
    var next := Step(g, p);
    if next == p then p
    else
      CardinalityShrinks(g.rules.Keys, p, next);
      ProductiveFrom(g, next)
  }

  /** Growing a subset of `keys` shrinks what is left of `keys`. */
  lemma CardinalityShrinks<T>(keys: set<T>, p: set<T>, next: set<T>)
    requires p < next <= keys
    ensures |keys - next| < |keys - p|
  {
    assert exists y :: y in next && y !in p;
    var x :| x in next && x !in p;
    var rest := keys - next;
    assert rest <= (keys - p) - {x};
    SubsetCardinality(rest, (keys - p) - {x});
  }

  lemma {:induction false} SubsetCardinality<T>(a: set<T>, b: set<T>)
    requires a <= b
    ensures |a| <= |b|
    decreases b
  {
    if a != {} {
      var x :| x in a;
      SubsetCardinality(a - {x}, b - {x});
    }
  }

  /** The productive non-terminals: the least closed set. */
  ghost function Productive(g: CFG): set<Token> {
    ProductiveFrom(g, {})
  }

  lemma {:induction false} ProductiveFromLeast(g: CFG, p: set<Token>)
    requires p <= g.rules.Keys
    requires BelowClosed(g, p)
    ensures ProductiveFrom(g, p) <= g.rules.Keys
    ensures Closed(g, ProductiveFrom(g, p))
    ensures BelowClosed(g, ProductiveFrom(g, p))
    decreases |g.rules.Keys - p|
  {
    var next := Step(g, p);
    if next != p {
      CardinalityShrinks(g.rules.Keys, p, next);
      forall q | Closed(g, q)
        ensures next <= q
      {
        forall a | a in next
          ensures a in q
        {
          if a !in p {
            var alt :| alt in g.rules[a] && Good(g, alt, p);
            GoodMonotone(g, alt, p, q);
          }
        }
      }
      ProductiveFromLeast(g, next);
    }
  }

  /** The productive set is made of rule keys, is closed, and lies below every
      closed set. */
  lemma ProductiveIsLeastClosed(g: CFG)
    ensures Productive(g) <= g.rules.Keys
    ensures Closed(g, Productive(g))
    ensures BelowClosed(g, Productive(g))
  {
    ProductiveFromLeast(g, {});
  }

  /** Those three properties determine the productive set. */
  lemma LeastClosedIsProductive(g: CFG, p: set<Token>)
    requires Closed(g, p) && BelowClosed(g, p)
    ensures p == Productive(g)
  {
    ProductiveIsLeastClosed(g);
  }

  /** get_good_non_terminals: repeated passes over the rules, each adding the keys
      that have a good alternative, until a pass adds nothing. */
  method GoodNonTerminals(g: CFG) returns (good: set<Token>)
    ensures good <= g.rules.Keys
    ensures Closed(g, good)
    ensures BelowClosed(g, good)
    ensures good == Productive(g)
  {
    good := {};
    var previous := good;
    while true
      invariant previous == good
      invariant good <= g.rules.Keys
      invariant BelowClosed(g, good)
      decreases |g.rules.Keys - previous|
    {
      good := GoodPass(g, previous);
      if good == previous {
        break;
      }
      CardinalityShrinks(g.rules.Keys, previous, good);
      previous := good;
    }
    LeastClosedIsProductive(g, good);
  }

  /** One pass of the `while True` loop over every key of the rules, in some
      order: a key joins when one of its alternatives is good with respect to
      the set as it stands. */
  method GoodPass(g: CFG, previous: set<Token>) returns (good: set<Token>)
    requires previous <= g.rules.Keys && BelowClosed(g, previous)
    ensures previous <= good <= g.rules.Keys
    ensures BelowClosed(g, good)
    ensures forall a :: a in g.rules && a !in good ==>
              forall alt :: alt in g.rules[a] ==> !Good(g, alt, previous)
  {
    good := previous;
    var left := g.rules.Keys;
    while left != {}
      invariant left <= g.rules.Keys
      invariant previous <= good <= g.rules.Keys
      invariant BelowClosed(g, good)
      invariant forall a :: a in g.rules && a !in left && a !in good ==>
                  forall alt :: alt in g.rules[a] ==> !Good(g, alt, previous)
      decreases left
    {
      var a :| a in left;
      var alternatives := g.rules[a];
      var found := SomeGood(g, alternatives, good);
      if found {
        forall q | Closed(g, q)
          ensures good + {a} <= q
        {
          var alt :| alt in alternatives && Good(g, alt, good);
          GoodMonotone(g, alt, good, q);
        }
        good := good + {a};
      } else {
        forall alt | alt in alternatives
          ensures !Good(g, alt, previous)
        {
          GoodMonotone(g, alt, previous, good);
        }
      }
      left := left - {a};
    }
  }

  /** The scan of one key's alternatives, stopping at the first good one. */
  method SomeGood(g: CFG, alternatives: seq<seq<Token>>, good: set<Token>) returns (found: bool)
    ensures found <==> exists alt :: alt in alternatives && Good(g, alt, good)
  {
    var i := 0;
    while i < |alternatives|
      invariant 0 <= i <= |alternatives|
      invariant forall j :: 0 <= j < i ==> !Good(g, alternatives[j], good)
    {
      if Good(g, alternatives[i], good) {
        return true;
      }
      i := i + 1;
    }
    return false;
  }

  /** is_not_empty: the axiom is productive. */
  method IsNotEmpty(g: CFG) returns (nonEmpty: bool)
    ensures nonEmpty <==> g.axiom in Productive(g)
  {
    var good := GoodNonTerminals(g);
    nonEmpty := g.axiom in good;
  }

  /** A grammar without rules has no productive non-terminal. */
  lemma NoRulesNoneProductive(g: CFG)
    requires g.rules == map[]
    ensures Productive(g) == {}
  {
    ProductiveIsLeastClosed(g);
  }

  /** A key whose alternatives are all empty or epsilon is never productive (the
      epsilon token is not a terminal), so `A -> ''` denotes the empty language. */
  lemma EpsilonOnlyUnproductive(g: CFG, a: Token)
    requires Epsilon !in g.terminals && Epsilon !in g.rules
    requires a in g.rules
    requires forall alt :: alt in g.rules[a] ==> alt == [] || alt == [Epsilon]
    ensures a !in Productive(g)
  {
    var p := Productive(g);
    ProductiveIsLeastClosed(g);
    var q := p - {a};
    assert Epsilon !in q;
    assert !HasGoodAlt(g, a, q);
    forall b | HasGoodAlt(g, b, q)
      ensures b in q
    {
      var alt :| alt in g.rules[b] && Good(g, alt, q);
      GoodMonotone(g, alt, q, p);
    }
    assert Closed(g, q);
  }

  /** The order-preserving filter of the alternatives that are good with respect to `p`. */
  function FilterGood(g: CFG, alts: seq<seq<Token>>, p: set<Token>): (r: seq<seq<Token>>)
    ensures forall alt :: alt in r <==> alt in alts && Good(g, alt, p)
    ensures |r| <= |alts|
  {
    if alts == [] then []
    else if Good(g, alts[0], p) then [alts[0]] + FilterGood(g, alts[1..], p)
    else FilterGood(g, alts[1..], p)
  }

  /** The grammar left once every unproductive key is dropped and every other key
      keeps only its alternatives made of terminals and productive symbols. */
  ghost function Prune(g: CFG, p: set<Token>): CFG {
    CFG(p, g.terminals, map a | a in g.rules && a in p :: FilterGood(g, g.rules[a], p), g.axiom)
  }

  /** remove_bad_non_terminals_and_rules: None exactly when the axiom is
      unproductive; otherwise the pruned grammar. */
  method RemoveBadNonTerminalsAndRules(g: CFG) returns (r: Option<CFG>)
    ensures r.None? <==> g.axiom !in Productive(g)
    ensures r.Some? ==> r.value == Prune(g, Productive(g))
  {
    var good := GoodNonTerminals(g);
    if g.axiom !in good {
      return None;
    }
    var rulesCopy := g.rules;
    var left := g.rules.Keys;
    while left != {}
      invariant left <= g.rules.Keys
      invariant rulesCopy.Keys == left + (g.rules.Keys - left) * good
      invariant forall a :: a in left ==> rulesCopy[a] == g.rules[a]
      invariant forall a :: a in g.rules && a !in left && a in good ==> rulesCopy[a] == FilterGood(g, g.rules[a], good)
      decreases left
    {
      var a :| a in left;
      if a !in good {
        rulesCopy := rulesCopy - {a};
      } else {
        var buffer := KeepGood(g, g.rules[a], good);
        rulesCopy := rulesCopy[a := buffer];
      }
      left := left - {a};
    }
    return Some(CFG(good, g.terminals, rulesCopy, g.axiom));
  }

  /** The buffer of the alternatives of one key that are good with respect to
      `good`, in their order. */
  method KeepGood(g: CFG, alts: seq<seq<Token>>, good: set<Token>) returns (buffer: seq<seq<Token>>)
    ensures buffer == FilterGood(g, alts, good)
  {
    buffer := [];
    var i := 0;
    while i < |alts|
      invariant 0 <= i <= |alts|
      invariant buffer == FilterGood(g, alts[..i], good)
    {
      FilterGoodSnoc(g, alts[..i], alts[i], good);
      assert alts[..i + 1] == alts[..i] + [alts[i]];
      if Good(g, alts[i], good) {
        buffer := buffer + [alts[i]];
      }
      i := i + 1;
    }
    assert alts[..i] == alts;
  }

  lemma {:induction false} FilterGoodSnoc(g: CFG, alts: seq<seq<Token>>, alt: seq<Token>, p: set<Token>)
    ensures FilterGood(g, alts + [alt], p) == FilterGood(g, alts, p) + (if Good(g, alt, p) then [alt] else [])
  {
    if alts != [] {
      assert (alts + [alt])[1..] == alts[1..] + [alt];
      FilterGoodSnoc(g, alts[1..], alt, p);
    }
  }

  /** After pruning, the non-terminals are the productive ones, every key is one of
      them, and every kept alternative is made of terminals and productive
      non-terminals; terminals and axiom are unchanged. */
  lemma PruneKeepsOnlyProductive(g: CFG)
    ensures Prune(g, Productive(g)).nonTerminals == Productive(g)
    ensures Prune(g, Productive(g)).rules.Keys == g.rules.Keys * Productive(g)
    ensures forall a, alt :: a in Prune(g, Productive(g)).rules && alt in Prune(g, Productive(g)).rules[a] ==>
              alt in g.rules[a] && Good(g, alt, Productive(g))
    ensures forall a, alt :: a in Productive(g) && a in g.rules && alt in g.rules[a] && Good(g, alt, Productive(g)) ==>
              alt in Prune(g, Productive(g)).rules[a]
    ensures Prune(g, Productive(g)).terminals == g.terminals && Prune(g, Productive(g)).axiom == g.axiom
  {
    ProductiveIsLeastClosed(g);
  }

  /** Pruning loses no productivity: every non-terminal of the pruned grammar is
      productive in it, so pruning a second time changes nothing. */
  lemma PruneAllProductive(g: CFG)
    ensures Productive(Prune(g, Productive(g))) == Productive(g)
  {
    var p := Productive(g);
    var h := Prune(g, p);
    ProductiveIsLeastClosed(g);
    ProductiveIsLeastClosed(h);
    var ph := Productive(h);
    // Every closed set of the pruned grammar, cut down to p, is closed in g.
    forall q | Closed(h, q)
      ensures p <= q
    {
      var c := q * p;
      forall a | HasGoodAlt(g, a, c)
        ensures a in c
      {
        var alt :| alt in g.rules[a] && Good(g, alt, c);
        GoodMonotone(g, alt, c, p);
        GoodMonotone(g, alt, c, q);
        assert a in p;
        assert alt in h.rules[a];
        assert Good(h, alt, q);
        assert HasGoodAlt(h, a, q);
      }
      assert Closed(g, c);
    }
    // Conversely p is closed in the pruned grammar.
    forall a | HasGoodAlt(h, a, p)
      ensures a in p
    {
    }
    assert Closed(h, p);
  }

  /** prune(prune(g)) == prune(g): the second pass keeps every key and every alternative. */
  lemma PruneIdempotent(g: CFG)
    ensures Prune(Prune(g, Productive(g)), Productive(Prune(g, Productive(g)))) == Prune(g, Productive(g))
  {
    var p := Productive(g);
    var h := Prune(g, p);
    PruneAllProductive(g);
    var h2 := Prune(h, p);
    forall a | a in h.rules
      ensures FilterGood(h, h.rules[a], p) == h.rules[a]
    {
      FilterGoodKeepsAll(h, h.rules[a], p);
    }
    assert h2.rules == h.rules;
  }

  lemma {:induction false} FilterGoodKeepsAll(g: CFG, alts: seq<seq<Token>>, p: set<Token>)
    requires forall alt :: alt in alts ==> Good(g, alt, p)
    ensures FilterGood(g, alts, p) == alts
  {
    if alts != [] {
      FilterGoodKeepsAll(g, alts[1..], p);
    }
  }
}
