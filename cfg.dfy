// The token-based context-free grammar of grammar.py: its value, its
// validating construction, its equality and the "good alternative" test that
// the productivity analysis is built on.

module Cfg {
  import opened Tokens

  /** A grammar: non-terminals, terminals, the ordered alternatives of each rule
      key, and the axiom. Every operation returns a new grammar. */
  datatype CFG = CFG(
    nonTerminals: set<Token>,
    terminals: set<Token>,
    rules: map<Token, seq<seq<Token>>>,
    axiom: Token)

  /** The three reasons construction raises. */
  datatype ConstructionError =
    | AxiomNotNonTerminal
    | KeyNotNonTerminal
    | UnknownSymbol

  datatype Result<T> = Ok(value: T) | Err(error: ConstructionError)

  /** A transformation that returns None in the source. */
  datatype Option<T> = None | Some(value: T)

  /** Every symbol of every right-hand side is a declared terminal or
      non-terminal. */
  ghost predicate SymbolsDeclared(nonTerminals: set<string>, terminals: set<string>, rules: map<string, seq<Body>>) {
    forall k, i, j :: k in rules && 0 <= i < |rules[k]| && 0 <= j < |Elements(rules[k][i])| ==>
      Elements(rules[k][i])[j] in terminals || Elements(rules[k][i])[j] in nonTerminals
  }

  /** The invariant a constructed grammar satisfies: the axiom and the rule keys
      are non-terminals, no alternative is empty, and every alternative is the
      epsilon alternative or made of declared symbols. */
  ghost predicate WellFormed(g: CFG) {
    && g.axiom in g.nonTerminals
    && g.rules.Keys <= g.nonTerminals
    && forall k, alt :: k in g.rules && alt in g.rules[k] ==>
         alt != [] &&
         (alt == [Epsilon] || forall t :: t in alt ==> t in g.terminals || t in g.nonTerminals)
  }

  /** CFG.__init__: validates the string input in the order the source does, then
      converts it to tokens. */
  method NewCFG(nonTerminals: set<string>, terminals: set<string>, rules: map<string, seq<Body>>, axiom: string)
    returns (r: Result<CFG>)
    ensures axiom !in nonTerminals ==> r == Err(AxiomNotNonTerminal)
    ensures axiom in nonTerminals && !(rules.Keys <= nonTerminals) ==> r == Err(KeyNotNonTerminal)
    ensures axiom in nonTerminals && rules.Keys <= nonTerminals && !SymbolsDeclared(nonTerminals, terminals, rules) ==>
              r == Err(UnknownSymbol)
    ensures r.Ok? <==> axiom in nonTerminals && rules.Keys <= nonTerminals && SymbolsDeclared(nonTerminals, terminals, rules)
    ensures r.Ok? ==> r.value == CFG(NameTokens(nonTerminals), NameTokens(terminals), TokenRules(rules), CharToken(axiom))
    ensures r.Ok? ==> WellFormed(r.value)
  {
    if axiom !in nonTerminals {
      return Err(AxiomNotNonTerminal);
    }
    if !(rules.Keys <= nonTerminals) {
      return Err(KeyNotNonTerminal);
    }
    var ok := AllSymbolsDeclared(nonTerminals, terminals, rules);
    if !ok {
      return Err(UnknownSymbol);
    }
    var n := ToSetOfTokens(nonTerminals);
    var t := ToSetOfTokens(terminals);
    var rs := ToDictOfTokens(rules);
    var g := CFG(n, t, rs, CharToken(axiom));
    TokenRulesWellFormed(nonTerminals, terminals, rules);
    return Ok(g);
  }

  /** The nested loops of the construction that look for an undeclared symbol. */
  method AllSymbolsDeclared(nonTerminals: set<string>, terminals: set<string>, rules: map<string, seq<Body>>)
    returns (ok: bool)
    ensures ok <==> SymbolsDeclared(nonTerminals, terminals, rules)
  {
    var left := rules.Keys;
    while left != {}
      invariant left <= rules.Keys
      invariant forall k, i, j :: k in rules && k !in left && 0 <= i < |rules[k]| && 0 <= j < |Elements(rules[k][i])| ==>
                  Elements(rules[k][i])[j] in terminals || Elements(rules[k][i])[j] in nonTerminals
      decreases left
    {
      var k :| k in left;
      var i := 0;
      while i < |rules[k]|
        invariant 0 <= i <= |rules[k]|
        invariant forall i', j :: 0 <= i' < i && 0 <= j < |Elements(rules[k][i'])| ==>
                    Elements(rules[k][i'])[j] in terminals || Elements(rules[k][i'])[j] in nonTerminals
      {
        var symbols := Elements(rules[k][i]);
        var j := 0;
        while j < |symbols|
          invariant 0 <= j <= |symbols|
          invariant forall j' :: 0 <= j' < j ==> symbols[j'] in terminals || symbols[j'] in nonTerminals
        {
          var symbol := symbols[j];
          if symbol !in terminals && symbol !in nonTerminals {
            return false;
          }
          j := j + 1;
        }
        i := i + 1;
      }
      left := left - {k};
    }
    return true;
  }

  /** The second test_case6 answer, written with list bodies: the primed symbol
      is one element of a list, so every symbol is declared and each list
      becomes one token per element. Written as the string "dcA'" the same body
      has the undeclared symbol "'" instead. */
  lemma ListBodyExample()
    ensures SymbolsDeclared({"A", "A'"}, {"c", "d"},
                            map["A" := [Chars("dc"), Names(["d", "c", "A'"])], "A'" := [Chars("c"), Names(["c", "A'"])]])
    ensures Tokenize(Names(["d", "c", "A'"])) == [CharToken("d"), CharToken("c"), CharToken("A'")]
    ensures Tokenize(Names([])) == [Epsilon]
    ensures !SymbolsDeclared({"A", "A'"}, {"c", "d"}, map["A" := [Chars("dcA'")]])
  {
    var rules := map["A" := [Chars("dc"), Names(["d", "c", "A'"])], "A'" := [Chars("c"), Names(["c", "A'"])]];
    forall k, i, j | k in rules && 0 <= i < |rules[k]| && 0 <= j < |Elements(rules[k][i])|
      ensures Elements(rules[k][i])[j] in {"c", "d"} || Elements(rules[k][i])[j] in {"A", "A'"}
    {
      if k == "A" {
        if i == 0 {
          assert Elements(Chars("dc")) == ["d", "c"];
        }
      } else {
        if i == 0 {
          assert Elements(Chars("c")) == ["c"];
        }
      }
    }
    var bad := map["A" := [Chars("dcA'")]];
    assert Elements(bad["A"][0])[3] == "'";
  }

  lemma TokenRulesWellFormed(nonTerminals: set<string>, terminals: set<string>, rules: map<string, seq<Body>>)
    requires rules.Keys <= nonTerminals
    requires SymbolsDeclared(nonTerminals, terminals, rules)
    ensures forall k, alt :: k in TokenRules(rules) && alt in TokenRules(rules)[k] ==>
              alt != [] &&
              (alt == [Epsilon] || forall t :: t in alt ==> t in NameTokens(terminals) || t in NameTokens(nonTerminals))
    ensures TokenRules(rules).Keys <= NameTokens(nonTerminals)
  {
    var tr := TokenRules(rules);
    forall k, alt | k in tr && alt in tr[k]
      ensures alt != []
      ensures alt == [Epsilon] || forall t :: t in alt ==> t in NameTokens(terminals) || t in NameTokens(nonTerminals)
    {
      var i :| 0 <= i < |tr[k]| && tr[k][i] == alt;
      var b := rules[k.lexem][i];
      TokenizeProperties(b);
      if Elements(b) != [] {
        forall t | t in alt
          ensures t in NameTokens(terminals) || t in NameTokens(nonTerminals)
        {
          var j :| 0 <= j < |alt| && alt[j] == t;
          assert t == CharToken(Elements(b)[j]);
        }
      }
    }
  }

  /** CFG.__eq__: equal symbol sets and axiom, equal rule keys, and for every key
      the same alternatives once both lists are sorted, i.e. the same multiset. */
  predicate Equal(g: CFG, h: CFG) {
    && g.nonTerminals == h.nonTerminals
    && g.terminals == h.terminals
    && g.axiom == h.axiom
    && g.rules.Keys == h.rules.Keys
    && forall k :: k in g.rules ==> multiset(g.rules[k]) == multiset(h.rules[k])
  }

  /** Grammar equality is an equivalence, and identical rule lists give equal
      grammars. EqualIgnoresOrder states that the order of alternatives does
      not matter. */
  lemma EqualIsEquivalence(g: CFG, h: CFG, e: CFG)
    ensures Equal(g, g)
    ensures Equal(g, h) ==> Equal(h, g)
    ensures Equal(g, h) && Equal(h, e) ==> Equal(g, e)
    ensures (g.nonTerminals == h.nonTerminals && g.terminals == h.terminals && g.axiom == h.axiom &&
             g.rules.Keys == h.rules.Keys && forall k :: k in g.rules ==> g.rules[k] == h.rules[k]) ==> Equal(g, h)
  {
  }

  /** Reordering the alternatives of one key gives an equal grammar, and a
      different number of copies of some alternative gives an unequal one. */
  lemma EqualIgnoresOrder(g: CFG, k: Token, alts: seq<seq<Token>>)
    requires k in g.rules
    ensures Equal(g, g.(rules := g.rules[k := alts])) <==> multiset(alts) == multiset(g.rules[k])
  {
    var h := g.(rules := g.rules[k := alts]);
    if Equal(g, h) {
      assert multiset(g.rules[k]) == multiset(h.rules[k]);
    }
  }

  /** is_contain_good_tokens: the alternative is non-empty and each of its symbols
      is a terminal or one of the given good non-terminals. */
  predicate Good(g: CFG, alt: seq<Token>, good: set<Token>) {
    alt != [] && forall t :: t in alt ==> t in g.terminals || t in good
  }

  /** More good non-terminals never make an alternative bad. */
  lemma GoodMonotone(g: CFG, alt: seq<Token>, p: set<Token>, q: set<Token>)
    requires p <= q
    ensures Good(g, alt, p) ==> Good(g, alt, q)
  {
  }

  /** An empty alternative is never good, and neither is the epsilon alternative
      unless the empty name was declared as a symbol. */
  lemma EpsilonNeverGood(g: CFG, good: set<Token>)
    ensures !Good(g, [], good)
    ensures Epsilon !in g.terminals && Epsilon !in good ==> !Good(g, [Epsilon], good)
  {
  }
}
