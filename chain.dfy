// Chain-rule elimination of grammar.py: the cycle-safe chain closure of each
// non-terminal and the rewrite that replaces chain rules by the non-chain
// alternatives of the closure.

module ChainRules {
  import opened Tokens
  import opened Cfg
  import opened Productivity
  import opened Reachability

  /** A chain rule: an alternative that is a single declared non-terminal. */
  predicate IsChain(g: CFG, alt: seq<Token>) {
    |alt| == 1 && alt[0] in g.nonTerminals
  }

  /** The non-terminals `x` has a chain rule to. */
  ghost function ChainSuccessors(g: CFG, x: Token): set<Token> {
    set y | y in g.nonTerminals && x in g.rules && [y] in g.rules[x]
  }

  ghost predicate ChainClosed(g: CFG, q: set<Token>) {
    forall x :: x in q ==> ChainSuccessors(g, x) <= q
  }

  /** `c` lies inside every chain-closed set that contains `key`. */
  ghost predicate BelowChainClosed(g: CFG, key: Token, c: set<Token>) {
    forall q :: ChainClosed(g, q) && key in q ==> c <= q
  }

  ghost function ChainStep(g: CFG, r: set<Token>): set<Token> {
    r + set y | y in g.nonTerminals && exists x :: x in r && y in ChainSuccessors(g, x)
  }

  ghost function ChainReachFrom(g: CFG, key: Token, r: set<Token>): set<Token>
    requires r <= g.nonTerminals + {key}
    decreases |g.nonTerminals + {key} - r|
  {
    var next := ChainStep(g, r);
    if next == r then r
    else
      CardinalityShrinks(g.nonTerminals + {key}, r, next);
      ChainReachFrom(g, key, next)
  }

  /** The chain closure of `key`: the non-terminals other than `key` that it
      reaches through chain rules alone. */
  ghost function ChainClosureOf(g: CFG, key: Token): set<Token> {
    ChainReachFrom(g, key, {key}) - {key}
  }

  lemma {:induction false} ChainReachFromLeast(g: CFG, key: Token, r: set<Token>)
    requires r <= g.nonTerminals + {key} && key in r
    requires BelowChainClosed(g, key, r)
    ensures key in ChainReachFrom(g, key, r)
    ensures ChainReachFrom(g, key, r) <= g.nonTerminals + {key}
    ensures ChainClosed(g, ChainReachFrom(g, key, r))
    ensures BelowChainClosed(g, key, ChainReachFrom(g, key, r))
    decreases |g.nonTerminals + {key} - r|
  {
    var next := ChainStep(g, r);
    if next != r {
      CardinalityShrinks(g.nonTerminals + {key}, r, next);
      forall q | ChainClosed(g, q) && key in q
        ensures next <= q
      {
        forall y | y in next
          ensures y in q
        {
          if y !in r {
            var x :| x in r && y in ChainSuccessors(g, x);
          }
        }
      }
      ChainReachFromLeast(g, key, next);
    }
  }

  /** The chain closure excludes `key`, holds only declared non-terminals, is
      closed together with `key`, and is the least such set. */
  lemma ChainClosureIsLeast(g: CFG, key: Token)
    ensures key !in ChainClosureOf(g, key)
    ensures ChainClosureOf(g, key) <= g.nonTerminals
    ensures ChainClosed(g, ChainClosureOf(g, key) + {key})
    ensures BelowChainClosed(g, key, ChainClosureOf(g, key))
  {
    ChainReachFromLeast(g, key, {key});
    assert ChainClosureOf(g, key) + {key} == ChainReachFrom(g, key, {key});
  }

  /** The non-terminals that alternatives among `alts` are chain rules to. */
  ghost function ChainTargets(g: CFG, alts: seq<seq<Token>>): set<Token> {
    set y | y in g.nonTerminals && [y] in alts
  }

  lemma ChainTargetsSnoc(g: CFG, alts: seq<seq<Token>>, i: nat)
    requires i < |alts|
    ensures ChainTargets(g, alts[..i + 1]) ==
              ChainTargets(g, alts[..i]) + (if IsChain(g, alts[i]) then {alts[i][0]} else {})
  {
    assert alts[..i + 1] == alts[..i] + [alts[i]];
    if IsChain(g, alts[i]) {
      assert alts[i] == [alts[i][0]];
    }
  }

  /** One more chain successor of a member of the set keeps it below every
      chain-closed set containing `key`. */
  lemma BelowChainClosedGrow(g: CFG, key: Token, v: set<Token>, nt: Token, y: Token)
    requires BelowChainClosed(g, key, v)
    requires nt == key || nt in v
    requires nt in g.rules && y in ChainTargets(g, g.rules[nt])
    ensures BelowChainClosed(g, key, v + {y})
  {
    forall q | ChainClosed(g, q) && key in q
      ensures v + {y} <= q
    {
      assert y in ChainSuccessors(g, nt);
    }
  }

  /** Every member of `v` outside `base` has all its chain successors in `v`
      or equal to `key`. */
  ghost predicate Settled(g: CFG, key: Token, v: set<Token>, base: set<Token>) {
    forall x :: x in v - base ==> ChainSuccessors(g, x) <= v + {key}
  }

  /** What the recursive call settled, together with what was settled before it,
      is settled. */
  lemma SettledAfterVisit(g: CFG, key: Token, value: set<Token>, before: set<Token>, y: Token, after: set<Token>)
    requires value <= before && before + {y} <= after
    requires Settled(g, key, before, value)
    requires Settled(g, key, after, before + {y})
    requires ChainSuccessors(g, y) <= after + {key}
    ensures Settled(g, key, after, value)
  {
  }

  /** fill_chain_non_terminals_value: depth-first search along chain rules from
      `nt`, adding to the accumulator every non-terminal not seen before other
      than `key`. */
  method FillChain(g: CFG, key: Token, value: set<Token>, nt: Token) returns (value': set<Token>)
    requires key !in value && value <= g.nonTerminals
    requires nt == key || nt in value
    requires BelowChainClosed(g, key, value)
    ensures value <= value' <= g.nonTerminals && key !in value'
    ensures BelowChainClosed(g, key, value')
    ensures ChainSuccessors(g, nt) <= value' + {key}
    ensures Settled(g, key, value', value)
    decreases |g.nonTerminals - value|, 1
  {
    value' := value;
    if nt in g.rules {
      var alts := g.rules[nt];
      var i := 0;
      while i < |alts|
        invariant 0 <= i <= |alts|
        invariant value <= value' <= g.nonTerminals && key !in value'
        invariant BelowChainClosed(g, key, value')
        invariant ChainTargets(g, alts[..i]) <= value' + {key}
        invariant Settled(g, key, value', value)
      {
        var alt := alts[i];
        ChainTargetsSnoc(g, alts, i);
        if |alt| == 1 && alt[0] in g.nonTerminals {
          if alt[0] !in value' && alt[0] != key {
            assert alt == [alt[0]];
            BelowChainClosedGrow(g, key, value', nt, alt[0]);
            value' := Visit(g, key, value, value', alt[0]);
          }
        }
        i := i + 1;
      }
      assert alts[..i] == alts;
      assert ChainSuccessors(g, nt) == ChainTargets(g, alts);
    }
  }

  /** The recursive call of the search on a newly found non-terminal `y`. */
  method Visit(g: CFG, key: Token, value: set<Token>, current: set<Token>, y: Token) returns (after: set<Token>)
    requires value <= current <= g.nonTerminals && key !in current
    requires Settled(g, key, current, value)
    requires y in g.nonTerminals && y !in current && y != key
    requires BelowChainClosed(g, key, current + {y})
    ensures current + {y} <= after <= g.nonTerminals && key !in after
    ensures BelowChainClosed(g, key, after)
    ensures Settled(g, key, after, value)
    decreases |g.nonTerminals - value|, 0
  {
    var grown := current + {y};
    CardinalityShrinks(g.nonTerminals, value, grown);
    after := FillChain(g, key, grown, y);
    SettledAfterVisit(g, key, value, current, y, after);
  }

  /** The closure a call of fill_chain_non_terminals_value with an empty
      accumulator computes for `key`. */
  method ChainClosure(g: CFG, key: Token) returns (c: set<Token>)
    ensures key !in c && c <= g.nonTerminals
    ensures ChainClosed(g, c + {key})
    ensures BelowChainClosed(g, key, c)
    ensures c == ChainClosureOf(g, key)
  {
    c := FillChain(g, key, {}, key);
    ChainClosureIsLeast(g, key);
    var mine := c + {key};
    var least := ChainClosureOf(g, key) + {key};
    assert least <= mine;
    assert c <= least;
  }

  /** The order-preserving filter of the alternatives that are not chain rules. */
  function NonChain(g: CFG, alts: seq<seq<Token>>): (r: seq<seq<Token>>)
    ensures forall alt :: alt in r <==> alt in alts && !IsChain(g, alt)
  {
    if alts == [] then []
    else if IsChain(g, alts[0]) then NonChain(g, alts[1..])
    else [alts[0]] + NonChain(g, alts[1..])
  }

  lemma {:induction false} NonChainSnoc(g: CFG, alts: seq<seq<Token>>, alt: seq<Token>)
    ensures NonChain(g, alts + [alt]) == NonChain(g, alts) + (if IsChain(g, alt) then [] else [alt])
  {
    if alts != [] {
      assert (alts + [alt])[1..] == alts[1..] + [alt];
      NonChainSnoc(g, alts[1..], alt);
    }
  }

  /** The loop that appends every alternative that is not a chain rule. */
  method AppendNonChain(g: CFG, outputs: seq<seq<Token>>, alts: seq<seq<Token>>) returns (outputs': seq<seq<Token>>)
    ensures outputs' == outputs + NonChain(g, alts)
  {
    outputs' := outputs;
    var i := 0;
    while i < |alts|
      invariant 0 <= i <= |alts|
      invariant outputs' == outputs + NonChain(g, alts[..i])
    {
      NonChainSnoc(g, alts[..i], alts[i]);
      assert alts[..i + 1] == alts[..i] + [alts[i]];
      if !(|alts[i]| == 1 && alts[i][0] in g.nonTerminals) {
        outputs' := outputs' + [alts[i]];
      }
      i := i + 1;
    }
    assert alts[..i] == alts;
  }

  /** `x` is offered to `a`: a non-chain alternative of `a` or of a member of its
      chain closure. */
  ghost predicate Offered(g: CFG, a: Token, x: seq<Token>) {
    || (a in g.rules && x in NonChain(g, g.rules[a]))
    || exists b :: b in ChainClosureOf(g, a) && b in g.rules && x in NonChain(g, g.rules[b])
  }

  /** What the key `b` contributes: its non-chain alternatives, if it has
      rules. */
  function Contributed(g: CFG, b: Token): seq<seq<Token>> {
    if b in g.rules then NonChain(g, g.rules[b]) else []
  }

  /** The contributions of the keys `bs`, one key after another. */
  function Gathered(g: CFG, bs: seq<Token>): seq<seq<Token>> {
    if bs == [] then [] else Gathered(g, bs[..|bs| - 1]) + Contributed(g, bs[|bs| - 1])
  }

  lemma GatheredSnoc(g: CFG, bs: seq<Token>, b: Token)
    ensures Gathered(g, bs + [b]) == Gathered(g, bs) + Contributed(g, b)
  {
    assert (bs + [b])[..|bs|] == bs;
  }

  lemma {:induction false} GatheredMembers(g: CFG, bs: seq<Token>, x: seq<Token>)
    ensures x in Gathered(g, bs) <==> exists b :: b in bs && b in g.rules && x in NonChain(g, g.rules[b])
  {
    if bs != [] {
      var init, last := bs[..|bs| - 1], bs[|bs| - 1];
      assert bs == init + [last];
      GatheredMembers(g, init, x);
      if x in Gathered(g, bs) && x !in Gathered(g, init) {
        assert last in bs && last in g.rules && x in NonChain(g, g.rules[last]);
      }
      if b :| b in bs && b in g.rules && x in NonChain(g, g.rules[b]) {
        if b != last {
          assert b in init;
        }
      }
    }
  }

  lemma ConcatAssoc<T>(a: seq<T>, b: seq<T>, c: seq<T>)
    ensures a + (b + c) == (a + b) + c
  {
  }

  /** `bs` lists the members of `s`, each once: one iteration order of the
      set. */
  ghost predicate Enumerates(bs: seq<Token>, s: set<Token>) {
    && (forall b :: b in bs <==> b in s)
    && (forall i, j :: 0 <= i < j < |bs| ==> bs[i] != bs[j])
  }

  lemma EnumeratesSnoc(bs: seq<Token>, s: set<Token>, b: Token)
    requires Enumerates(bs, s) && b !in s
    ensures Enumerates(bs + [b], s + {b})
  {
    var bs' := bs + [b];
    forall i, j | 0 <= i < j < |bs'|
      ensures bs'[i] != bs'[j]
    {
      if j == |bs| {
        assert bs'[i] == bs[i] && bs[i] in s;
      }
    }
  }

  /** The new rule map of remove_chain_rules before unreachable symbols are
      removed: a key of the input that has something offered gets its own
      non-chain alternatives and then, for the members of its closure taken
      in some order, theirs, duplicates included. */
  ghost predicate ChainFreeRules(g: CFG, rules: map<Token, seq<seq<Token>>>) {
    && (forall a :: a in rules <==> a in g.nonTerminals && a in g.rules && exists x :: Offered(g, a, x))
    && (forall a, x :: a in rules ==> (x in rules[a] <==> Offered(g, a, x)))
    && (forall a :: a in rules ==> ChainFreeList(g, a, rules[a]))
  }

  /** `outputs` is the list remove_chain_rules builds for `a`, for some
      iteration order of its chain closure. */
  ghost predicate ChainFreeList(g: CFG, a: Token, outputs: seq<seq<Token>>)
    requires a in g.rules
  {
    exists bs :: Enumerates(bs, ChainClosureOf(g, a)) && outputs == NonChain(g, g.rules[a]) + Gathered(g, bs)
  }

  /** Whatever the order of the closure, the list holds exactly what is
      offered. */
  lemma ChainFreeListMembers(g: CFG, a: Token, outputs: seq<seq<Token>>, x: seq<Token>)
    requires a in g.rules && ChainFreeList(g, a, outputs)
    ensures x in outputs <==> Offered(g, a, x)
  {
    var bs :| Enumerates(bs, ChainClosureOf(g, a)) && outputs == NonChain(g, g.rules[a]) + Gathered(g, bs);
    GatheredMembers(g, bs, x);
  }

  /** The alternatives collected for one key. */
  method CollectAlternatives(g: CFG, first: Token, closure: set<Token>) returns (outputs: seq<seq<Token>>)
    requires first in g.rules
    requires closure == ChainClosureOf(g, first)
    ensures ChainFreeList(g, first, outputs)
    ensures forall x :: x in outputs <==> Offered(g, first, x)
  {
    outputs := AppendNonChain(g, [], g.rules[first]);
    var own := outputs;
    var left := closure;
    ghost var visited: seq<Token> := [];
    while left != {}
      invariant left <= closure
      invariant Enumerates(visited, closure - left)
      invariant outputs == own + Gathered(g, visited)
      decreases left
    {
      var b :| b in left;
      GatheredSnoc(g, visited, b);
      EnumeratesSnoc(visited, closure - left, b);
      assert closure - (left - {b}) == (closure - left) + {b};
      ghost var before := outputs;
      if b in g.rules {
        outputs := AppendNonChain(g, outputs, g.rules[b]);
        assert outputs == before + Contributed(g, b);
      } else {
        assert Contributed(g, b) == [];
        assert before + [] == before;
      }
      ConcatAssoc(own, Gathered(g, visited), Contributed(g, b));
      visited := visited + [b];
      left := left - {b};
    }
    assert ChainFreeList(g, first, outputs) by {
      assert closure - left == closure;
      assert Enumerates(visited, ChainClosureOf(g, first));
      assert own == NonChain(g, g.rules[first]);
    }
    forall x
      ensures x in outputs <==> Offered(g, first, x)
    {
      ChainFreeListMembers(g, first, outputs, x);
    }
  }

  /** The first loop of remove_chain_rules: the chain closure of every
      non-terminal. */
  method ChainClosures(g: CFG) returns (chain: map<Token, set<Token>>)
    ensures chain.Keys == g.nonTerminals
    ensures forall a :: a in chain ==> chain[a] == ChainClosureOf(g, a)
  {
    chain := map[];
    var left := g.nonTerminals;
    while left != {}
      invariant left <= g.nonTerminals
      invariant chain.Keys == g.nonTerminals - left
      invariant forall a :: a in chain ==> chain[a] == ChainClosureOf(g, a)
      decreases left
    {
      var nt :| nt in left;
      var c := ChainClosure(g, nt);
      chain := chain[nt := c];
      left := left - {nt};
    }
  }

  /** The second loop of remove_chain_rules: the new rule of each key that has
      something offered. */
  method ChainFreeRuleMap(g: CFG, chain: map<Token, set<Token>>) returns (rules: map<Token, seq<seq<Token>>>)
    requires chain.Keys == g.nonTerminals
    requires forall a :: a in chain ==> chain[a] == ChainClosureOf(g, a)
    ensures ChainFreeRules(g, rules)
  {
    rules := map[];
    var keys := chain.Keys;
    while keys != {}
      invariant keys <= chain.Keys
      invariant forall a :: a in rules <==> a in chain.Keys - keys && a in g.rules && exists x :: Offered(g, a, x)
      invariant forall a, x :: a in rules ==> (x in rules[a] <==> Offered(g, a, x))
      invariant forall a :: a in rules ==> ChainFreeList(g, a, rules[a])
      decreases keys
    {
      var first :| first in keys;
      if first in g.rules {
        var outputs := CollectAlternatives(g, first, chain[first]);
        if outputs != [] {
          assert Offered(g, first, outputs[0]);
          rules := rules[first := outputs];
        } else {
          assert forall x :: !Offered(g, first, x);
        }
      }
      keys := keys - {first};
    }
  }

  /** The grammar with the new rule map, its unreachable symbols removed and
      the input terminals restored. */
  ghost function ChainFreeGrammar(g: CFG, rules: map<Token, seq<seq<Token>>>): CFG {
    WithoutUnreachable(CFG(g.nonTerminals, g.terminals, rules, g.axiom)).(terminals := g.terminals)
  }

  /** remove_chain_rules: replaces chain rules by closure substitution, removes
      the symbols that become unreachable, and restores the input terminals. */
  method RemoveChainRules(g: CFG) returns (r: CFG)
    ensures exists rules :: ChainFreeRules(g, rules) && r == ChainFreeGrammar(g, rules)
  {
    var chain := ChainClosures(g);
    var rules := ChainFreeRuleMap(g, chain);
    r := RemoveUnreachableSymbols(CFG(g.nonTerminals, g.terminals, rules, g.axiom));
    r := r.(terminals := g.terminals);
    assert ChainFreeRules(g, rules) && r == ChainFreeGrammar(g, rules);
  }

  /** No alternative of the result is a chain rule, the result keeps the input's
      terminals and axiom, and each kept key's list is its new chain-free list. */
  lemma ChainRulesRemoved(g: CFG, rules: map<Token, seq<seq<Token>>>)
    requires ChainFreeRules(g, rules)
    requires g.axiom in g.nonTerminals && Epsilon !in g.nonTerminals
    ensures var r := ChainFreeGrammar(g, rules);
      && r.terminals == g.terminals
      && r.axiom == g.axiom
      && r.nonTerminals <= g.nonTerminals
      && (forall a, alt :: a in r.rules && alt in r.rules[a] ==> !IsChain(g, alt) && !IsChain(r, alt))
      && (forall a :: a in r.rules && a in rules ==> r.rules[a] == rules[a])
  {
    var h := CFG(g.nonTerminals, g.terminals, rules, g.axiom);
    WithoutUnreachableShape(h);
    ReachableIsLeastClosed(h);
    var r := WithoutUnreachable(h).(terminals := g.terminals);
    forall a, alt | a in r.rules && alt in r.rules[a]
      ensures !IsChain(g, alt)
    {
      if a in rules && r.rules[a] == rules[a] {
        assert Offered(g, a, alt);
      }
    }
  }

  /** A -> B | x, B -> x: the chain rule to B is replaced by B's own `x`. */
  function DuplicateExample(): CFG {
    var a, b, x := CharToken("A"), CharToken("B"), CharToken("x");
    CFG({a, b}, {x}, map[a := [[b], [x]], b := [[x]]], a)
  }

  lemma DuplicateExampleClosure()
    ensures ChainClosureOf(DuplicateExample(), CharToken("A")) == {CharToken("B")}
  {
    var g := DuplicateExample();
    var a, b := CharToken("A"), CharToken("B");
    ChainClosureIsLeast(g, a);
    assert b in ChainSuccessors(g, a);
    assert ChainSuccessors(g, a) <= ChainClosureOf(g, a) + {a};
  }

  lemma DuplicateExampleNonChain()
    ensures var g := DuplicateExample();
      && NonChain(g, g.rules[CharToken("A")]) == [[CharToken("x")]]
      && NonChain(g, g.rules[CharToken("B")]) == [[CharToken("x")]]
  {
    var g := DuplicateExample();
    var b, x := CharToken("B"), CharToken("x");
    assert IsChain(g, [b]) && !IsChain(g, [x]);
  }

  /** An enumeration is as long as the set it lists. */
  lemma {:induction false} EnumeratesSize(bs: seq<Token>, s: set<Token>)
    requires Enumerates(bs, s)
    ensures |bs| == |s|
  {
    if bs == [] {
      assert s == {} by {
        forall b | b in s
          ensures b in bs
        {
        }
      }
    } else {
      var init, last := bs[..|bs| - 1], bs[|bs| - 1];
      assert bs == init + [last];
      assert last !in init by {
        forall i | 0 <= i < |init|
          ensures init[i] != last
        {
          assert init[i] == bs[i];
        }
      }
      assert Enumerates(init, s - {last});
      EnumeratesSize(init, s - {last});
      assert last in s;
      assert s == (s - {last}) + {last};
    }
  }

  /** The only enumeration of a singleton. */
  lemma SingletonEnumeration(bs: seq<Token>, b: Token)
    requires Enumerates(bs, {b})
    ensures bs == [b]
  {
    EnumeratesSize(bs, {b});
    assert bs[0] in bs;
  }

  /** The only chain-free list of A is x, x. */
  lemma DuplicateExampleList(outputs: seq<seq<Token>>)
    requires CharToken("A") in DuplicateExample().rules
    requires ChainFreeList(DuplicateExample(), CharToken("A"), outputs)
    ensures outputs == [[CharToken("x")], [CharToken("x")]]
  {
    var g := DuplicateExample();
    var a, b, x := CharToken("A"), CharToken("B"), CharToken("x");
    DuplicateExampleClosure();
    DuplicateExampleNonChain();
    var bs :| Enumerates(bs, {b}) && outputs == NonChain(g, g.rules[a]) + Gathered(g, bs);
    SingletonEnumeration(bs, b);
    assert Gathered(g, [b]) == [[x]] by {
      assert [b][..0] == [];
    }
  }

  /** remove_chain_rules keeps duplicates: A's list becomes x, x. */
  lemma DuplicatesKept(rules: map<Token, seq<seq<Token>>>)
    requires ChainFreeRules(DuplicateExample(), rules)
    ensures CharToken("A") in rules && rules[CharToken("A")] == [[CharToken("x")], [CharToken("x")]]
  {
    var g, a := DuplicateExample(), CharToken("A");
    assert Offered(g, a, [CharToken("x")]) by {
      DuplicateExampleNonChain();
    }
    DuplicateExampleList(rules[a]);
  }
}
