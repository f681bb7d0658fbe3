// The Chomsky normal-form loop of greibach/Chomsky.py over an ordered list of
// rules. A symbol is one character; whether it is a terminal is given by a
// predicate, and fresh non-terminals are drawn from a list of candidates.

module Chomsky {
  import opened Cfg

  /** A rule `lhs -> rhs`. */
  datatype Rule = Rule(lhs: char, rhs: seq<char>)

  /** What a loop that rewrites the rules one step at a time ends with. */
  datatype Outcome = Finished | Stuck | Next(rules: seq<Rule>)

  /** Every symbol on either side of some rule. */
  function RuleSymbols(rules: seq<Rule>): set<char> {
    (set r | r in rules :: r.lhs) + (set r, c | r in rules && c in r.rhs :: c)
  }

  /** The symbols a new non-terminal must avoid. */
  function Used(rules: seq<Rule>, nonTerminals: set<char>): set<char> {
    RuleSymbols(rules) + nonTerminals
  }

  /** get_unused_non_terminal: the first candidate of `pool` that is not used;
      None when every candidate is used. */
  function Unused(pool: seq<char>, used: set<char>): (r: Option<char>)
    ensures r.Some? ==> r.value in pool && r.value !in used
    ensures r.None? ==> forall c :: c in pool ==> c in used
  {
    if pool == [] then None
    else if pool[0] !in used then Some(pool[0])
    else Unused(pool[1..], used)
  }

  /** The candidates for new non-terminals are not terminals. */
  predicate NonTerminalPool(pool: seq<char>, isTerminal: char -> bool) {
    forall c :: c in pool ==> !isTerminal(c)
  }

  // check_start_symbol_is_used and the new start symbol.

  predicate StartSymbolUsed(rules: seq<Rule>, start: char) {
    exists r :: r in rules && start in r.rhs
  }

  /** The rules after the start-symbol check: `$ -> start` in front when the
      start symbol occurs on some right-hand side. */
  function WithStartRule(rules: seq<Rule>, start: char): seq<Rule> {
    if StartSymbolUsed(rules, start) then [Rule('$', [start])] + rules else rules
  }

  // One step of the `while True` loop.

  /** A length-2 right-hand side that holds a terminal. */
  predicate NeedsTerminalFix(r: Rule, isTerminal: char -> bool) {
    |r.rhs| == 2 && (isTerminal(r.rhs[0]) || isTerminal(r.rhs[1]))
  }

  /** A rule the loop rewrites. */
  predicate Matches(r: Rule, isTerminal: char -> bool) {
    NeedsTerminalFix(r, isTerminal) || |r.rhs| > 2
  }

  /** The loop's exit condition: every right-hand side has at most two symbols
      and none of two symbols holds a terminal. */
  predicate InChomskyShape(rules: seq<Rule>, isTerminal: char -> bool) {
    forall r :: r in rules ==> |r.rhs| <= 2 && !NeedsTerminalFix(r, isTerminal)
  }

  /** The index of the first rule the loop rewrites, or |rules| if none. */
  function FirstMatch(rules: seq<Rule>, isTerminal: char -> bool): (i: nat)
    ensures i <= |rules|
    ensures i < |rules| ==> Matches(rules[i], isTerminal)
    ensures forall j :: 0 <= j < i ==> !Matches(rules[j], isTerminal)
  {
    if rules == [] then 0
    else if Matches(rules[0], isTerminal) then 0
    else 1 + FirstMatch(rules[1..], isTerminal)
  }

  /** Rewriting rule i to `lhs -> first second` and appending `n -> t`. */
  function Replace(rules: seq<Rule>, i: nat, first: char, second: char, n: char, t: seq<char>): seq<Rule>
    requires i < |rules|
  {
    rules[i := Rule(rules[i].lhs, [first, second])] + [Rule(n, t)]
  }

  /** The terminal step (Chomsky.py:20-33): a terminal in the first position is
      replaced by a new `N` with `N -> t` appended; then, on the updated rule,
      the same for the second position. None when no unused symbol is left. */
  function TerminalFix(rules: seq<Rule>, i: nat, nonTerminals: set<char>, isTerminal: char -> bool, pool: seq<char>)
    : Option<seq<Rule>>
    requires i < |rules| && |rules[i].rhs| == 2
  {
    var x, y := rules[i].rhs[0], rules[i].rhs[1];
    var n1 := Unused(pool, Used(rules, nonTerminals));
    if isTerminal(x) && n1.None? then None
    else
      var rs := if isTerminal(x) then Replace(rules, i, n1.value, y, n1.value, [x]) else rules;
      var first := if isTerminal(x) then n1.value else x;
      var n2 := Unused(pool, Used(rs, nonTerminals));
      if !isTerminal(y) then Some(rs)
      else if n2.None? then None
      else Some(Replace(rs, i, first, n2.value, n2.value, [y]))
  }

  /** The split step (Chomsky.py:35-40): `A -> X1 X2..Xn` becomes `A -> X1 N`
      and `N -> X2..Xn` is appended, with `N` unused. */
  function Split(rules: seq<Rule>, i: nat, nonTerminals: set<char>, pool: seq<char>): Option<seq<Rule>>
    requires i < |rules| && |rules[i].rhs| > 2
  {
    var n := Unused(pool, Used(rules, nonTerminals));
    if n.None? then None else Some(Replace(rules, i, rules[i].rhs[0], n.value, n.value, rules[i].rhs[1..]))
  }

  /** One pass of the `for` loop: the first matching rule rewritten, or
      Finished when no rule matches (the `for ... else: break`). */
  function Step(rules: seq<Rule>, nonTerminals: set<char>, isTerminal: char -> bool, pool: seq<char>): Outcome {
    var i := FirstMatch(rules, isTerminal);
    if i == |rules| then Finished
    else
      var next := if |rules[i].rhs| == 2 then TerminalFix(rules, i, nonTerminals, isTerminal, pool)
                  else Split(rules, i, nonTerminals, pool);
      if next.None? then Stuck else Next(next.value)
  }

  // The loop terminates: each step lowers a weight.

  function TerminalCount(rhs: seq<char>, isTerminal: char -> bool): nat
    requires |rhs| == 2
  {
    (if isTerminal(rhs[0]) then 1 else 0) + (if isTerminal(rhs[1]) then 1 else 0)
  }

  /** A long right-hand side weighs more than the two rules it is split into;
      a right-hand side of two symbols weighs its terminals. */
  function Weight(r: Rule, isTerminal: char -> bool): nat {
    if |r.rhs| > 2 then 3 * |r.rhs| - 4
    else if |r.rhs| == 2 then TerminalCount(r.rhs, isTerminal)
    else 0
  }

  function TotalWeight(rules: seq<Rule>, isTerminal: char -> bool): nat {
    if rules == [] then 0 else TotalWeight(rules[..|rules| - 1], isTerminal) + Weight(rules[|rules| - 1], isTerminal)
  }

  lemma TotalWeightAppend(rules: seq<Rule>, r: Rule, isTerminal: char -> bool)
    ensures TotalWeight(rules + [r], isTerminal) == TotalWeight(rules, isTerminal) + Weight(r, isTerminal)
  {
    assert (rules + [r])[..|rules|] == rules;
  }

  lemma {:induction false} TotalWeightUpdate(rules: seq<Rule>, i: nat, r: Rule, isTerminal: char -> bool)
    requires i < |rules|
    ensures TotalWeight(rules[i := r], isTerminal) + Weight(rules[i], isTerminal) == TotalWeight(rules, isTerminal) + Weight(r, isTerminal)
  {
    var n := |rules|;
    if i == n - 1 {
      assert rules[i := r][..n - 1] == rules[..n - 1];
    } else {
      assert rules[i := r][..n - 1] == rules[..n - 1][i := r];
      TotalWeightUpdate(rules[..n - 1], i, r, isTerminal);
    }
  }

  lemma ReplaceWeight(rules: seq<Rule>, i: nat, first: char, second: char, n: char, t: seq<char>, isTerminal: char -> bool)
    requires i < |rules|
    ensures TotalWeight(Replace(rules, i, first, second, n, t), isTerminal) + Weight(rules[i], isTerminal)
            == TotalWeight(rules, isTerminal) + Weight(Rule(rules[i].lhs, [first, second]), isTerminal) + Weight(Rule(n, t), isTerminal)
  {
    TotalWeightUpdate(rules, i, Rule(rules[i].lhs, [first, second]), isTerminal);
    TotalWeightAppend(rules[i := Rule(rules[i].lhs, [first, second])], Rule(n, t), isTerminal);
  }

  /** Every step the loop takes lowers the total weight, provided the new
      symbols are not terminals. */
  lemma StepDecreases(rules: seq<Rule>, nonTerminals: set<char>, isTerminal: char -> bool, pool: seq<char>)
    requires NonTerminalPool(pool, isTerminal)
    requires Step(rules, nonTerminals, isTerminal, pool).Next?
    ensures TotalWeight(Step(rules, nonTerminals, isTerminal, pool).rules, isTerminal) < TotalWeight(rules, isTerminal)
  {
    var i := FirstMatch(rules, isTerminal);
    var r := rules[i];
    if |r.rhs| == 2 {
      var x, y := r.rhs[0], r.rhs[1];
      var n1 := Unused(pool, Used(rules, nonTerminals));
      var rs := if isTerminal(x) then Replace(rules, i, n1.value, y, n1.value, [x]) else rules;
      var first := if isTerminal(x) then n1.value else x;
      if isTerminal(x) {
        ReplaceWeight(rules, i, n1.value, y, n1.value, [x], isTerminal);
      }
      assert rs[i] == Rule(r.lhs, [first, y]);
      assert !isTerminal(first);
      if isTerminal(y) {
        var n2 := Unused(pool, Used(rs, nonTerminals));
        ReplaceWeight(rs, i, first, n2.value, n2.value, [y], isTerminal);
      }
    } else {
      var n := Unused(pool, Used(rules, nonTerminals));
      ReplaceWeight(rules, i, r.rhs[0], n.value, n.value, r.rhs[1..], isTerminal);
    }
  }

  /** The whole loop from `rules`: the final rules, or None when no unused
      symbol is left for a step. */
  function Run(rules: seq<Rule>, nonTerminals: set<char>, isTerminal: char -> bool, pool: seq<char>): Option<seq<Rule>>
    requires NonTerminalPool(pool, isTerminal)
    decreases TotalWeight(rules, isTerminal)
  {
    var s := Step(rules, nonTerminals, isTerminal, pool);
    if s.Finished? then Some(rules)
    else if s.Stuck? then None
    else
      StepDecreases(rules, nonTerminals, isTerminal, pool);
      Run(s.rules, nonTerminals, isTerminal, pool)
  }

  // What the loop promises.

  /** When the loop ends, every right-hand side has at most two symbols and no
      right-hand side of two symbols holds a terminal. */
  lemma {:induction false} RunShape(rules: seq<Rule>, nonTerminals: set<char>, isTerminal: char -> bool, pool: seq<char>)
    requires NonTerminalPool(pool, isTerminal)
    requires Run(rules, nonTerminals, isTerminal, pool).Some?
    ensures InChomskyShape(Run(rules, nonTerminals, isTerminal, pool).value, isTerminal)
    decreases TotalWeight(rules, isTerminal)
  {
    var s := Step(rules, nonTerminals, isTerminal, pool);
    if s.Finished? {
      forall r | r in rules
        ensures |r.rhs| <= 2 && !NeedsTerminalFix(r, isTerminal)
      {
        var j :| 0 <= j < |rules| && rules[j] == r;
      }
    } else {
      StepDecreases(rules, nonTerminals, isTerminal, pool);
      RunShape(s.rules, nonTerminals, isTerminal, pool);
    }
  }

  /** `rules` is a prefix of `out` up to the right-hand sides: the same number
      of leading rules with the same left sides, those of at most one symbol
      unchanged; the rules after them have unused left sides from the pool. */
  ghost predicate Extends(out: seq<Rule>, rules: seq<Rule>, nonTerminals: set<char>, pool: seq<char>) {
    && |rules| <= |out|
    && (forall i :: 0 <= i < |rules| ==> out[i].lhs == rules[i].lhs)
    && (forall i :: 0 <= i < |rules| && |rules[i].rhs| <= 1 ==> out[i] == rules[i])
    && (forall j :: |rules| <= j < |out| ==> out[j].lhs in pool && out[j].lhs !in Used(rules, nonTerminals))
  }

  lemma RuleSymbolsHas(rules: seq<Rule>, k: nat, c: char)
    requires k < |rules| && (c == rules[k].lhs || c in rules[k].rhs)
    ensures c in RuleSymbols(rules)
  {
    assert rules[k] in rules;
  }

  /** Rewriting a rule whose symbols all reappear keeps every symbol in use. */
  lemma ReplaceKeepsSymbols(rules: seq<Rule>, i: nat, first: char, second: char, n: char, t: seq<char>)
    requires i < |rules|
    requires forall c :: c in rules[i].rhs ==> c == first || c == second || c in t
    ensures RuleSymbols(rules) <= RuleSymbols(Replace(rules, i, first, second, n, t))
  {
    var out := Replace(rules, i, first, second, n, t);
    forall c | c in RuleSymbols(rules)
      ensures c in RuleSymbols(out)
    {
      var q :| q in rules && (c == q.lhs || c in q.rhs);
      var k :| 0 <= k < |rules| && rules[k] == q;
      if k != i {
        RuleSymbolsHas(out, k, c);
      } else if c == q.lhs || c == first || c == second {
        assert out[i].rhs == [first, second];
        RuleSymbolsHas(out, i, c);
      } else {
        assert out[|rules|].rhs == t;
        RuleSymbolsHas(out, |rules|, c);
      }
    }
  }

  /** Rewriting a rule of two or more symbols with a fresh candidate extends
      the rules. */
  lemma ReplaceExtends(rules: seq<Rule>, i: nat, first: char, second: char, n: char, t: seq<char>,
                       nonTerminals: set<char>, pool: seq<char>)
    requires i < |rules| && |rules[i].rhs| >= 2
    requires n in pool && n !in Used(rules, nonTerminals)
    ensures Extends(Replace(rules, i, first, second, n, t), rules, nonTerminals, pool)
  {
  }

  lemma {:induction false} ExtendsTrans(a: seq<Rule>, b: seq<Rule>, c: seq<Rule>, nonTerminals: set<char>, pool: seq<char>)
    requires Extends(b, a, nonTerminals, pool) && Extends(c, b, nonTerminals, pool)
    requires Used(a, nonTerminals) <= Used(b, nonTerminals)
    ensures Extends(c, a, nonTerminals, pool)
  {
    forall i | 0 <= i < |a| && |a[i].rhs| <= 1
      ensures c[i] == a[i]
    {
      assert b[i] == a[i];
    }
  }

  /** A step extends the rules and keeps every symbol in use. */
  lemma StepExtends(rules: seq<Rule>, nonTerminals: set<char>, isTerminal: char -> bool, pool: seq<char>)
    requires Step(rules, nonTerminals, isTerminal, pool).Next?
    ensures var out := Step(rules, nonTerminals, isTerminal, pool).rules;
      Extends(out, rules, nonTerminals, pool) && Used(rules, nonTerminals) <= Used(out, nonTerminals)
  {
    var i := FirstMatch(rules, isTerminal);
    if |rules[i].rhs| == 2 {
      TerminalFixExtends(rules, i, nonTerminals, isTerminal, pool);
    } else {
      SplitExtends(rules, i, nonTerminals, pool);
    }
  }

  lemma TerminalFixExtends(rules: seq<Rule>, i: nat, nonTerminals: set<char>, isTerminal: char -> bool, pool: seq<char>)
    requires i < |rules| && |rules[i].rhs| == 2
    requires TerminalFix(rules, i, nonTerminals, isTerminal, pool).Some?
    ensures var out := TerminalFix(rules, i, nonTerminals, isTerminal, pool).value;
      Extends(out, rules, nonTerminals, pool) && Used(rules, nonTerminals) <= Used(out, nonTerminals)
  {
    var r := rules[i];
    var x, y := r.rhs[0], r.rhs[1];
    var n1 := Unused(pool, Used(rules, nonTerminals));
    var rs := if isTerminal(x) then Replace(rules, i, n1.value, y, n1.value, [x]) else rules;
    var first := if isTerminal(x) then n1.value else x;
    if isTerminal(x) {
      ReplaceExtends(rules, i, n1.value, y, n1.value, [x], nonTerminals, pool);
      ReplaceKeepsSymbols(rules, i, n1.value, y, n1.value, [x]);
    }
    assert rs[i] == Rule(r.lhs, [first, y]);
    if isTerminal(y) {
      var n2 := Unused(pool, Used(rs, nonTerminals));
      ReplaceExtends(rs, i, first, n2.value, n2.value, [y], nonTerminals, pool);
      ReplaceKeepsSymbols(rs, i, first, n2.value, n2.value, [y]);
      if isTerminal(x) {
        ExtendsTrans(rules, rs, Replace(rs, i, first, n2.value, n2.value, [y]), nonTerminals, pool);
      }
    }
  }

  lemma SplitExtends(rules: seq<Rule>, i: nat, nonTerminals: set<char>, pool: seq<char>)
    requires i < |rules| && |rules[i].rhs| > 2
    requires Split(rules, i, nonTerminals, pool).Some?
    ensures var out := Split(rules, i, nonTerminals, pool).value;
      Extends(out, rules, nonTerminals, pool) && Used(rules, nonTerminals) <= Used(out, nonTerminals)
  {
    var r := rules[i];
    var n := Unused(pool, Used(rules, nonTerminals));
    ReplaceExtends(rules, i, r.rhs[0], n.value, n.value, r.rhs[1..], nonTerminals, pool);
    forall c | c in r.rhs
      ensures c == r.rhs[0] || c in r.rhs[1..]
    {
      var k :| 0 <= k < |r.rhs| && r.rhs[k] == c;
      if k > 0 {
        assert r.rhs[1..][k - 1] == c;
      }
    }
    ReplaceKeepsSymbols(rules, i, r.rhs[0], n.value, n.value, r.rhs[1..]);
  }

  /** Existing rules keep their place and left side, rules of at most one
      symbol are never rewritten, and every appended rule's left side is a
      candidate that was unused in the rules the loop started from. */
  lemma {:induction false} RunExtends(rules: seq<Rule>, nonTerminals: set<char>, isTerminal: char -> bool, pool: seq<char>)
    requires NonTerminalPool(pool, isTerminal)
    requires Run(rules, nonTerminals, isTerminal, pool).Some?
    ensures Extends(Run(rules, nonTerminals, isTerminal, pool).value, rules, nonTerminals, pool)
    decreases TotalWeight(rules, isTerminal)
  {
    var s := Step(rules, nonTerminals, isTerminal, pool);
    if s.Next? {
      StepDecreases(rules, nonTerminals, isTerminal, pool);
      RunExtends(s.rules, nonTerminals, isTerminal, pool);
      StepExtends(rules, nonTerminals, isTerminal, pool);
      ExtendsTrans(rules, s.rules, Run(s.rules, nonTerminals, isTerminal, pool).value, nonTerminals, pool);
    }
  }

  /** Chomsky.convert after the simplification, on the grammar's rules, its
      non-terminals and its start symbol, which the source updates in place. */
  class ChomskyConverter {
    var rules: seq<Rule>
    var nonTerminals: set<char>
    var startSymbol: char

    constructor (rules: seq<Rule>, nonTerminals: set<char>, startSymbol: char)
      ensures this.rules == rules && this.nonTerminals == nonTerminals && this.startSymbol == startSymbol
    {
      this.rules := rules;
      this.nonTerminals := nonTerminals;
      this.startSymbol := startSymbol;
    }

    /** check_start_symbol_is_used: the start symbol occurs on some
        right-hand side. */
    method CheckStartSymbolIsUsed() returns (used: bool)
      ensures used <==> StartSymbolUsed(rules, startSymbol)
    {
      var i := 0;
      while i < |rules|
        invariant 0 <= i <= |rules|
        invariant forall k :: 0 <= k < i ==> startSymbol !in rules[k].rhs
      {
        if startSymbol in rules[i].rhs {
          assert rules[i] in rules;
          return true;
        }
        i := i + 1;
      }
      return false;
    }

    /** The rule `$ -> start` goes to index 0 and `$` becomes a non-terminal
        when the start symbol is used; the start symbol itself is left as it
        is. */
    method AddStartRule()
      modifies this
      ensures rules == WithStartRule(old(rules), old(startSymbol))
      ensures nonTerminals == if StartSymbolUsed(old(rules), old(startSymbol)) then old(nonTerminals) + {'$'} else old(nonTerminals)
      ensures startSymbol == old(startSymbol)
    {
      var used := CheckStartSymbolIsUsed();
      if used {
        rules := [Rule('$', [startSymbol])] + rules;
        nonTerminals := nonTerminals + {'$'};
      }
    }

    /** The `for` loop's search: the first rule to rewrite. */
    method FindRule(isTerminal: char -> bool) returns (i: nat)
      ensures i == FirstMatch(rules, isTerminal)
    {
      i := 0;
      while i < |rules| && !Matches(rules[i], isTerminal)
        invariant 0 <= i <= |rules|
        invariant forall j :: 0 <= j < i ==> !Matches(rules[j], isTerminal)
      {
        i := i + 1;
      }
      FirstMatchUnique(rules, isTerminal, i);
    }

    /** The terminal step on rule i, updating the rule in place. */
    method FixTerminals(i: nat, isTerminal: char -> bool, pool: seq<char>) returns (ok: bool)
      requires i < |rules| && |rules[i].rhs| == 2
      modifies this
      ensures nonTerminals == old(nonTerminals) && startSymbol == old(startSymbol)
      ensures var t := TerminalFix(old(rules), i, old(nonTerminals), isTerminal, pool);
        ok == t.Some? && (ok ==> rules == t.value)
    {
      var x, y := rules[i].rhs[0], rules[i].rhs[1];
      if isTerminal(x) {
        var n := Unused(pool, Used(rules, nonTerminals));
        if n.None? {
          return false;
        }
        ghost var before := rules;
        rules := rules + [Rule(n.value, [x])];
        rules := rules[i := Rule(rules[i].lhs, [n.value, y])];
        AppendThenUpdate(before, i, Rule(n.value, [x]), Rule(before[i].lhs, [n.value, y]));
      }
      if isTerminal(rules[i].rhs[1]) {
        var n := Unused(pool, Used(rules, nonTerminals));
        if n.None? {
          return false;
        }
        ghost var before := rules;
        rules := rules + [Rule(n.value, [y])];
        rules := rules[i := Rule(rules[i].lhs, [rules[i].rhs[0], n.value])];
        AppendThenUpdate(before, i, Rule(n.value, [y]), Rule(before[i].lhs, [before[i].rhs[0], n.value]));
      }
      return true;
    }

    /** The split step on rule i. */
    method SplitRule(i: nat, pool: seq<char>) returns (ok: bool)
      requires i < |rules| && |rules[i].rhs| > 2
      modifies this
      ensures nonTerminals == old(nonTerminals) && startSymbol == old(startSymbol)
      ensures var t := Split(old(rules), i, old(nonTerminals), pool);
        ok == t.Some? && (ok ==> rules == t.value)
    {
      var n := Unused(pool, Used(rules, nonTerminals));
      if n.None? {
        return false;
      }
      var newRule := Rule(n.value, rules[i].rhs[1..]);
      rules := rules[i := Rule(rules[i].lhs, [rules[i].rhs[0], n.value])];
      rules := rules + [newRule];
      return true;
    }

    /** Chomsky.convert after the simplification: the start-symbol check, then
        the `while True` loop until no rule matches. False when no unused
        symbol is left for a step. */
    method Convert(isTerminal: char -> bool, pool: seq<char>) returns (ok: bool)
      requires NonTerminalPool(pool, isTerminal)
      modifies this
      ensures var started := WithStartRule(old(rules), old(startSymbol));
        var n := if StartSymbolUsed(old(rules), old(startSymbol)) then old(nonTerminals) + {'$'} else old(nonTerminals);
        && nonTerminals == n
        && ok == Run(started, n, isTerminal, pool).Some?
        && (ok ==> rules == Run(started, n, isTerminal, pool).value)
      ensures ok ==> InChomskyShape(rules, isTerminal)
      ensures startSymbol == old(startSymbol)
    {
      AddStartRule();
      ghost var start := rules;
      while true
        invariant nonTerminals == old(if StartSymbolUsed(rules, startSymbol) then nonTerminals + {'$'} else nonTerminals)
        invariant startSymbol == old(startSymbol)
        invariant Run(rules, nonTerminals, isTerminal, pool) == Run(start, nonTerminals, isTerminal, pool)
        decreases TotalWeight(rules, isTerminal)
      {
        ghost var before := rules;
        var i := FindRule(isTerminal);
        if i == |rules| {
          RunShape(start, nonTerminals, isTerminal, pool);
          return true;
        }
        if |rules[i].rhs| == 2 {
          ok := FixTerminals(i, isTerminal, pool);
        } else {
          ok := SplitRule(i, pool);
        }
        if !ok {
          return false;
        }
        StepDecreases(before, nonTerminals, isTerminal, pool);
      }
    }
  }

  /** Appending and then updating an old position is updating and then
      appending. */
  lemma AppendThenUpdate(rules: seq<Rule>, i: nat, last: Rule, r: Rule)
    requires i < |rules|
    ensures (rules + [last])[i := r] == rules[i := r] + [last]
  {
  }

  lemma FirstMatchUnique(rules: seq<Rule>, isTerminal: char -> bool, i: nat)
    requires i <= |rules|
    requires i < |rules| ==> Matches(rules[i], isTerminal)
    requires forall j :: 0 <= j < i ==> !Matches(rules[j], isTerminal)
    ensures i == FirstMatch(rules, isTerminal)
  {
  }
}
