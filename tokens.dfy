// Symbols of the token-based grammar (grammar.py): every symbol is a token
// with a lexem and a type; the grammar only ever builds tokens of type "char".

module Tokens {

  /** A grammar symbol. Two tokens are equal when lexem and type are equal. */
  datatype Token = Token(lexem: string, kind: string)

  /** The token built for one name or one character of the input. */
  function CharToken(s: string): Token {
    Token(s, "char")
  }

  /** The epsilon token that stands for an empty right-hand side. */
  const Epsilon: Token := CharToken("")

  /** A right-hand side as the caller writes it: a string, whose characters
      are its symbols, or a list of symbol names such as `['c', 'c', "A'"]`. */
  datatype Body = Chars(text: string) | Names(names: seq<string>)

  /** The symbols `for ch in rhs` visits: the one-character strings of a string
      body, the elements of a list body. */
  function Elements(b: Body): seq<string> {
    match b
    case Chars(s) => seq(|s|, i requires 0 <= i < |s| => [s[i]])
    case Names(ns) => ns
  }

  /** One "char" token per name, in order. */
  function NamesToTokens(ns: seq<string>): (r: seq<Token>)
    ensures |r| == |ns|
    ensures forall i :: 0 <= i < |ns| ==> r[i] == CharToken(ns[i])
  {
    if ns == [] then [] else [CharToken(ns[0])] + NamesToTokens(ns[1..])
  }

  /** The alternative that a right-hand side stands for: one token per symbol,
      or the single epsilon token when it has no symbol. */
  function Tokenize(b: Body): seq<Token> {
    if Elements(b) == [] then [Epsilon] else NamesToTokens(Elements(b))
  }

  /** The lexems of a sequence of tokens, in order. */
  function Lexems(ts: seq<Token>): seq<string> {
    if ts == [] then [] else [ts[0].lexem] + Lexems(ts[1..])
  }

  lemma {:induction false} LexemsNamesToTokens(ns: seq<string>)
    ensures Lexems(NamesToTokens(ns)) == ns
  {
    if ns != [] {
      LexemsNamesToTokens(ns[1..]);
    }
  }

  /** A tokenized alternative is never empty. Without symbols it is the single
      epsilon token; otherwise it has one token per symbol of the body, and
      its lexems give the symbols back. A string body's symbols are its
      characters and a list body's its elements. */
  lemma TokenizeProperties(b: Body)
    ensures Tokenize(b) != []
    ensures Elements(b) == [] ==> Tokenize(b) == [Epsilon]
    ensures Elements(b) != [] ==>
      && |Tokenize(b)| == |Elements(b)|
      && (forall i :: 0 <= i < |Elements(b)| ==> Tokenize(b)[i] == CharToken(Elements(b)[i]))
      && Lexems(Tokenize(b)) == Elements(b)
    ensures b.Chars? ==> |Elements(b)| == |b.text| && forall i :: 0 <= i < |b.text| ==> Elements(b)[i] == [b.text[i]]
    ensures b.Names? ==> Elements(b) == b.names
    ensures Chars([]) == b || Names([]) == b ==> Tokenize(b) == [Epsilon]
  {
    LexemsNamesToTokens(Elements(b));
  }

  /** to_array_of_tokens: appends one token per symbol, then the epsilon token
      if nothing was appended. */
  method ToArrayOfTokens(b: Body) returns (r: seq<Token>)
    ensures r == Tokenize(b)
  {
    var symbols := Elements(b);
    r := [];
    var i := 0;
    while i < |symbols|
      invariant 0 <= i <= |symbols|
      invariant |r| == i
      invariant forall j :: 0 <= j < i ==> r[j] == CharToken(symbols[j])
    {
      r := r + [CharToken(symbols[i])];
      i := i + 1;
    }
    if |r| == 0 {
      r := r + [Epsilon];
    }
  }

  /** The tokens of a set of names. */
  function NameTokens(names: set<string>): set<Token> {
    set n | n in names :: CharToken(n)
  }

  /** to_set_of_tokens: one "char" token per name. */
  method ToSetOfTokens(names: set<string>) returns (r: set<Token>)
    ensures forall t :: t in r <==> t.kind == "char" && t.lexem in names
    ensures r == NameTokens(names)
  {
    r := {};
    var left := names;
    while left != {}
      invariant left <= names
      invariant r == NameTokens(names - left)
      decreases left
    {
      var n :| n in left;
      r := r + {CharToken(n)};
      left := left - {n};
    }
    assert names - left == names;
  }

  /** The token rules built from the caller's rules: each key becomes a token
      and each right-hand side becomes its tokenized alternative, in order. */
  function TokenRules(rules: map<string, seq<Body>>): map<Token, seq<seq<Token>>> {
    map k | k in NameTokens(rules.Keys) :: seq(|rules[k.lexem]|, i requires 0 <= i < |rules[k.lexem]| => Tokenize(rules[k.lexem][i]))
  }

  /** A key's right sides, each tokenized, in order. */
  method TokenizeEach(bodies: seq<Body>) returns (alternatives: seq<seq<Token>>)
    ensures |alternatives| == |bodies|
    ensures forall j :: 0 <= j < |bodies| ==> alternatives[j] == Tokenize(bodies[j])
  {
    alternatives := [];
    var i := 0;
    while i < |bodies|
      invariant 0 <= i <= |bodies|
      invariant |alternatives| == i
      invariant forall j :: 0 <= j < i ==> alternatives[j] == Tokenize(bodies[j])
    {
      var alt := ToArrayOfTokens(bodies[i]);
      alternatives := alternatives + [alt];
      i := i + 1;
    }
  }

  /** A map with the tokenized keys and, under each, the tokenized right sides
      is the token rules. */
  lemma TokenRulesPointwise(rules: map<string, seq<Body>>, r: map<Token, seq<seq<Token>>>)
    requires r.Keys == NameTokens(rules.Keys)
    requires forall k :: k in rules ==> |r[CharToken(k)]| == |rules[k]|
    requires forall k, i :: k in rules && 0 <= i < |rules[k]| ==> r[CharToken(k)][i] == Tokenize(rules[k][i])
    ensures r == TokenRules(rules)
  {
    forall t | t in r
      ensures r[t] == TokenRules(rules)[t]
    {
      assert t == CharToken(t.lexem) && t.lexem in rules;
    }
  }

  /** to_dict_of_tokens. */
  method ToDictOfTokens(rules: map<string, seq<Body>>) returns (r: map<Token, seq<seq<Token>>>)
    ensures r.Keys == NameTokens(rules.Keys)
    ensures forall k :: k in rules ==> |r[CharToken(k)]| == |rules[k]|
    ensures forall k, i :: k in rules && 0 <= i < |rules[k]| ==> r[CharToken(k)][i] == Tokenize(rules[k][i])
    ensures r == TokenRules(rules)
  {
    r := map[];
    var left := rules.Keys;
    while left != {}
      invariant left <= rules.Keys
      invariant r.Keys == NameTokens(rules.Keys - left)
      invariant forall k :: k in rules && k !in left ==> |r[CharToken(k)]| == |rules[k]|
      invariant forall k, i :: k in rules && k !in left && 0 <= i < |rules[k]| ==> r[CharToken(k)][i] == Tokenize(rules[k][i])
      decreases left
    {
      var k :| k in left;
      var alternatives := TokenizeEach(rules[k]);
      r := r[CharToken(k) := alternatives];
      left := left - {k};
    }
    assert rules.Keys - left == rules.Keys;
    TokenRulesPointwise(rules, r);
  }
}
