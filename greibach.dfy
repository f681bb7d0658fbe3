// The Greibach normal-form passes of greibach/Greibach.py over the ordered
// rule list the Chomsky conversion leaves. Whether a symbol is a non-terminal
// is given by a predicate; fresh non-terminals come from a list of candidates.

module Greibach {
  import opened Cfg
  import opened Chomsky

  // Ranking non-terminals by first occurrence (map_non_terminal_to_ordered_symbols).

  /** The symbols of the rules in the order the ranking visits them: each
      rule's left side, then its right side. */
  function AllSymbols(rules: seq<Rule>): seq<char> {
    if rules == [] then [] else AllSymbols(rules[..|rules| - 1]) + RuleOrder(rules[|rules| - 1])
  }

  /** get_all_rule_symbols of one rule. */
  function RuleOrder(r: Rule): seq<char> {
    [r.lhs] + r.rhs
  }

  /** One symbol visited: a non-terminal seen for the first time gets the
      next rank. */
  function Visit(o: seq<char>, c: char, isNonTerminal: char -> bool): seq<char> {
    if isNonTerminal(c) && c !in o then o + [c] else o
  }

  /** The non-terminals of `s` in the order of their first occurrence. */
  function Order(s: seq<char>, isNonTerminal: char -> bool): seq<char> {
    if s == [] then [] else Visit(Order(s[..|s| - 1], isNonTerminal), s[|s| - 1], isNonTerminal)
  }

  predicate Distinct(o: seq<char>) {
    forall i, j :: 0 <= i < j < |o| ==> o[i] != o[j]
  }

  /** The position of `c` in `o`. */
  function IndexOf(o: seq<char>, c: char): (k: nat)
    requires c in o
    ensures k < |o| && o[k] == c
    ensures forall j :: 0 <= j < k ==> o[j] != c
  {
    if o[0] == c then 0 else 1 + IndexOf(o[1..], c)
  }

  /** `mapping`: each ranked symbol to its rank. */
  function RankMap(o: seq<char>): map<char, nat> {
    map c | c in o :: IndexOf(o, c)
  }

  /** `reverse_mapping`: each rank to its symbol. */
  function ReverseMap(o: seq<char>): map<nat, char> {
    map k | 0 <= k < |o| :: o[k]
  }

  /** The first position of `c` in `s`. */
  function FirstIndex(s: seq<char>, c: char): nat
    requires c in s
  {
    IndexOf(s, c)
  }

  lemma {:induction false} OrderMembers(s: seq<char>, isNonTerminal: char -> bool)
    ensures forall c :: c in Order(s, isNonTerminal) <==> c in s && isNonTerminal(c)
  {
    if s != [] {
      var p := s[..|s| - 1];
      OrderMembers(p, isNonTerminal);
      assert s == p + [s[|s| - 1]];
    }
  }

  lemma {:induction false} OrderDistinct(s: seq<char>, isNonTerminal: char -> bool)
    ensures Distinct(Order(s, isNonTerminal))
  {
    if s != [] {
      OrderDistinct(s[..|s| - 1], isNonTerminal);
    }
  }

  lemma IndexOfPrefix(s: seq<char>, t: seq<char>, c: char)
    requires c in s
    ensures IndexOf(s + t, c) == IndexOf(s, c)
  {
    var k := IndexOf(s, c);
    IndexOfUnique(s + t, c, k);
  }

  lemma IndexOfUnique(s: seq<char>, c: char, k: nat)
    requires k < |s| && s[k] == c
    requires forall j :: 0 <= j < k ==> s[j] != c
    ensures IndexOf(s, c) == k
  {
  }

  /** Ranks follow first occurrences: a lower rank means an earlier first
      occurrence in the visited symbols. */
  lemma {:induction false} OrderByFirstOccurrence(s: seq<char>, isNonTerminal: char -> bool, i: nat, j: nat)
    requires i < j < |Order(s, isNonTerminal)|
    ensures Order(s, isNonTerminal)[i] in s && Order(s, isNonTerminal)[j] in s
    ensures FirstIndex(s, Order(s, isNonTerminal)[i]) < FirstIndex(s, Order(s, isNonTerminal)[j])
  {
    var o := Order(s, isNonTerminal);
    OrderMembers(s, isNonTerminal);
    assert o[i] in o && o[j] in o;
    var p, c := s[..|s| - 1], s[|s| - 1];
    var op := Order(p, isNonTerminal);
    assert s == p + [c];
    OrderMembers(p, isNonTerminal);
    assert o[i] == op[i] && op[i] in op;
    IndexOfPrefix(p, [c], o[i]);
    if j < |op| {
      assert o[j] == op[j] && op[j] in op;
      IndexOfPrefix(p, [c], o[j]);
      OrderByFirstOccurrence(p, isNonTerminal, i, j);
    } else {
      assert o[j] == c && c !in p;
      forall m | 0 <= m < |p|
        ensures s[m] != c
      {
        assert s[m] == p[m];
      }
      IndexOfUnique(s, c, |p|);
    }
  }

  /** The ranking: `mapping` and `reverse_mapping` are inverse bijections
      between the distinct non-terminals of the rules and 0..n-1. */
  lemma RankInverse(s: seq<char>, isNonTerminal: char -> bool)
    ensures var o := Order(s, isNonTerminal);
      && RankMap(o).Keys == (set c | c in s && isNonTerminal(c))
      && (forall k :: k in ReverseMap(o) <==> 0 <= k < |o|)
      && (forall c :: c in RankMap(o) ==> RankMap(o)[c] in ReverseMap(o) && ReverseMap(o)[RankMap(o)[c]] == c)
      && (forall k :: k in ReverseMap(o) ==> ReverseMap(o)[k] in RankMap(o) && RankMap(o)[ReverseMap(o)[k]] == k)
  {
    var o := Order(s, isNonTerminal);
    OrderMembers(s, isNonTerminal);
    OrderDistinct(s, isNonTerminal);
    forall k | k in ReverseMap(o)
      ensures RankMap(o)[ReverseMap(o)[k]] == k
    {
      IndexOfUnique(o, o[k], k);
    }
  }

  // Finding rules and substituting bodies.

  /** find_rules_by_lhs: the ascending indices of the rules for `x`. */
  function IndicesOf(rules: seq<Rule>, x: char): (ix: seq<nat>)
    ensures forall k :: 0 <= k < |ix| ==> ix[k] < |rules| && rules[ix[k]].lhs == x
    ensures forall j :: 0 <= j < |rules| && rules[j].lhs == x ==> j in ix
    ensures forall k, m :: 0 <= k < m < |ix| ==> ix[k] < ix[m]
  {
    if rules == [] then []
    else
      var p := IndicesOf(rules[..|rules| - 1], x);
      if rules[|rules| - 1].lhs == x then p + [|rules| - 1] else p
  }

  predicate InRange(rules: seq<Rule>, ix: seq<nat>) {
    forall k :: 0 <= k < |ix| ==> ix[k] < |rules|
  }

  /** The rules `lhs -> β suffix` for the bodies β at the given indices, in
      index order. */
  function Appended(rules: seq<Rule>, ix: seq<nat>, lhs: char, suffix: seq<char>): seq<Rule>
    requires InRange(rules, ix)
  {
    if ix == [] then []
    else Appended(rules, ix[..|ix| - 1], lhs, suffix) + [Rule(lhs, rules[ix[|ix| - 1]].rhs + suffix)]
  }

  lemma {:induction false} AppendedMembers(rules: seq<Rule>, ix: seq<nat>, lhs: char, suffix: seq<char>)
    requires InRange(rules, ix)
    ensures |Appended(rules, ix, lhs, suffix)| == |ix|
    ensures forall r :: r in Appended(rules, ix, lhs, suffix) <==>
      exists k :: 0 <= k < |ix| && r == Rule(lhs, rules[ix[k]].rhs + suffix)
  {
    if ix != [] {
      var p := ix[..|ix| - 1];
      AppendedMembers(rules, p, lhs, suffix);
      forall r | r in Appended(rules, ix, lhs, suffix)
        ensures exists k :: 0 <= k < |ix| && r == Rule(lhs, rules[ix[k]].rhs + suffix)
      {
        if r !in Appended(rules, p, lhs, suffix) {
          assert r == Rule(lhs, rules[ix[|ix| - 1]].rhs + suffix);
        } else {
          var k :| 0 <= k < |p| && r == Rule(lhs, rules[p[k]].rhs + suffix);
          assert ix[k] == p[k];
        }
      }
      forall r | exists k :: 0 <= k < |ix| && r == Rule(lhs, rules[ix[k]].rhs + suffix)
        ensures r in Appended(rules, ix, lhs, suffix)
      {
        var k :| 0 <= k < |ix| && r == Rule(lhs, rules[ix[k]].rhs + suffix);
        if k < |p| {
          assert p[k] == ix[k];
        }
      }
    }
  }

  /** list.remove: drops the first rule equal to `r`. */
  function RemoveFirst(rules: seq<Rule>, r: Rule): (out: seq<Rule>)
    requires r in rules
    ensures |out| == |rules| - 1
  {
    if rules[0] == r then rules[1..] else [rules[0]] + RemoveFirst(rules[1..], r)
  }

  /** Removing the first rule equal to rules[i], when no earlier rule equals
      it, removes position i. */
  lemma {:induction false} RemoveFirstAt(rules: seq<Rule>, i: nat)
    requires i < |rules|
    requires forall j :: 0 <= j < i ==> rules[j] != rules[i]
    ensures RemoveFirst(rules, rules[i]) == rules[..i] + rules[i + 1..]
  {
    if i > 0 {
      RemoveFirstAt(rules[1..], i - 1);
      assert rules[1..][i - 1] == rules[i];
      assert rules[1..][..i - 1] == rules[1..i];
      assert rules[1..][i..] == rules[i + 1..];
    }
  }

  /** The substitution step of sort_rules and make_rhs_first_symbol_terminal:
      rule i, `A -> Bα`, is replaced by `A -> βα` appended for every rule
      `B -> β`. */
  function Substitute(rules: seq<Rule>, i: nat): seq<Rule>
    requires i < |rules| && rules[i].rhs != []
  {
    var r := rules[i];
    var ix := IndicesOf(rules, r.rhs[0]);
    var grown := rules + Appended(rules, ix, r.lhs, r.rhs[1..]);
    grown[..i] + grown[i + 1..]
  }

  /** The step drops rule i, keeps the other rules in order and appends
      exactly the rules `A -> βα` for the rules `B -> β`. */
  lemma SubstituteMembers(rules: seq<Rule>, i: nat)
    requires i < |rules| && rules[i].rhs != []
    ensures var out := Substitute(rules, i);
      var r := rules[i];
      && out[..|rules| - 1] == rules[..i] + rules[i + 1..]
      && forall q :: q in out[|rules| - 1..] <==> SubstitutedBody(rules, i, q)
  {
    var r := rules[i];
    var ix := IndicesOf(rules, r.rhs[0]);
    var e := Appended(rules, ix, r.lhs, r.rhs[1..]);
    var out := Substitute(rules, i);
    AppendedMembers(rules, ix, r.lhs, r.rhs[1..]);
    assert out == rules[..i] + rules[i + 1..] + e;
    assert out[|rules| - 1..] == e;
    forall q | q in e
      ensures SubstitutedBody(rules, i, q)
    {
      var k :| 0 <= k < |ix| && q == Rule(r.lhs, rules[ix[k]].rhs + r.rhs[1..]);
    }
    forall q | SubstitutedBody(rules, i, q)
      ensures q in e
    {
      var j :| 0 <= j < |rules| && rules[j].lhs == r.rhs[0] && q == Rule(r.lhs, rules[j].rhs + r.rhs[1..]);
      var k :| 0 <= k < |ix| && ix[k] == j;
    }
  }

  /** `q` is `A -> βα` for some rule `B -> β`, rule i being `A -> Bα`. */
  ghost predicate SubstitutedBody(rules: seq<Rule>, i: nat, q: Rule)
    requires i < |rules| && rules[i].rhs != []
  {
    exists j :: 0 <= j < |rules| && rules[j].lhs == rules[i].rhs[0] && q == Rule(rules[i].lhs, rules[j].rhs + rules[i].rhs[1..])
  }

  // The restart loops.

  /** How one rule looks to a pass: left alone, rewritten, or an exception
      (an empty right side, an unranked symbol). */
  datatype Verdict = Skip | Hit | Fail

  /** The `for` loop of a pass: the first rule that is not skipped, or
      |rules| when every rule is. */
  function Scan(rules: seq<Rule>, v: Rule -> Verdict): (i: nat)
    ensures i <= |rules|
    ensures i < |rules| ==> v(rules[i]) != Skip
    ensures forall j :: 0 <= j < i ==> v(rules[j]) == Skip
  {
    if rules == [] then 0
    else if v(rules[0]) != Skip then 0
    else 1 + Scan(rules[1..], v)
  }

  /** When the scan finds nothing, every rule is skipped. */
  lemma ScanAllSkipped(rules: seq<Rule>, v: Rule -> Verdict)
    requires Scan(rules, v) == |rules|
    ensures forall r :: r in rules ==> v(r) == Skip
  {
    forall r | r in rules
      ensures v(r) == Skip
    {
      var j :| 0 <= j < |rules| && rules[j] == r;
    }
  }

  /** The test of sort_rules: `rule.rhs[0]` is a non-terminal ranked below
      `rule.lhs`. */
  function SortVerdict(r: Rule, mapping: map<char, nat>, isNonTerminal: char -> bool): Verdict {
    if r.rhs == [] then Fail
    else if !isNonTerminal(r.rhs[0]) then Skip
    else if r.lhs !in mapping || r.rhs[0] !in mapping then Fail
    else if mapping[r.lhs] > mapping[r.rhs[0]] then Hit
    else Skip
  }

  /** The test of remove_left_recursion: the rule starts with its own left
      side. */
  function RecursionVerdict(r: Rule, isNonTerminal: char -> bool): Verdict {
    if r.rhs == [] then Fail
    else if isNonTerminal(r.rhs[0]) && r.lhs == r.rhs[0] then Hit
    else Skip
  }

  /** The test of make_rhs_first_symbol_terminal: the rule starts with a
      non-terminal. */
  function LeadVerdict(r: Rule, isNonTerminal: char -> bool): Verdict {
    if r.rhs == [] then Fail
    else if isNonTerminal(r.rhs[0]) then Hit
    else Skip
  }

  function SortTest(mapping: map<char, nat>, isNonTerminal: char -> bool): Rule -> Verdict {
    r => SortVerdict(r, mapping, isNonTerminal)
  }

  function RecursionTest(isNonTerminal: char -> bool): Rule -> Verdict {
    r => RecursionVerdict(r, isNonTerminal)
  }

  function LeadTest(isNonTerminal: char -> bool): Rule -> Verdict {
    r => LeadVerdict(r, isNonTerminal)
  }

  /** How a pass ends: with the final rules, with an exception, or after
      `fuel` rewriting steps without reaching its exit condition. */
  datatype PassResult = Done(rules: seq<Rule>) | Failed | OutOfFuel

  /** One pass of the `for` loop of sort_rules or
      make_rhs_first_symbol_terminal: Finished when every rule is skipped,
      Stuck on an exception, otherwise the substitution at the first hit. */
  function SubstStep(rules: seq<Rule>, v: Rule -> Verdict): Outcome {
    var i := Scan(rules, v);
    if i == |rules| then Finished
    else if v(rules[i]) == Fail || rules[i].rhs == [] then Stuck
    else Next(Substitute(rules, i))
  }

  function SubstStepper(v: Rule -> Verdict): seq<Rule> -> Outcome {
    rules => SubstStep(rules, v)
  }

  /** A `while True` restart loop driven by `step`, for at most `fuel`
      rewriting steps. */
  function Pass(rules: seq<Rule>, step: seq<Rule> -> Outcome, fuel: nat): PassResult
    decreases fuel
  {
    var s := step(rules);
    if s.Finished? then Done(rules)
    else if s.Stuck? then Failed
    else if fuel == 0 then OutOfFuel
    else Pass(s.rules, step, fuel - 1)
  }

  /** A pass ends only where its step finds nothing to do. */
  lemma {:induction false} PassExit(rules: seq<Rule>, step: seq<Rule> -> Outcome, fuel: nat)
    requires Pass(rules, step, fuel).Done?
    ensures step(Pass(rules, step, fuel).rules).Finished?
    decreases fuel
  {
    if !step(rules).Finished? {
      PassExit(step(rules).rules, step, fuel - 1);
    }
  }

  /** A substitution pass ends only when every rule is skipped. */
  lemma SubstPassExit(rules: seq<Rule>, v: Rule -> Verdict, fuel: nat)
    requires Pass(rules, SubstStepper(v), fuel).Done?
    ensures forall r :: r in Pass(rules, SubstStepper(v), fuel).rules ==> v(r) == Skip
  {
    var out := Pass(rules, SubstStepper(v), fuel).rules;
    PassExit(rules, SubstStepper(v), fuel);
    assert SubstStep(out, v).Finished?;
    ScanAllSkipped(out, v);
  }

  /** The remove_left_recursion step on rule i, `A -> Aα`, with the fresh
      symbol `z`: `Z -> α` and `Z -> αZ` are appended, then `A -> βZ` for every
      other rule `A -> β`, and rule i is removed. */
  function RecursionRewrite(rules: seq<Rule>, i: nat, z: char): seq<Rule>
    requires i < |rules| && rules[i].rhs != []
  {
    var grown := WithPrimes(rules, i, z);
    grown[..i] + grown[i + 1..]
  }

  /** The rules before rule i is removed: the `Z` rules, then `A -> βZ` for
      the other rules `A -> β`. */
  function WithPrimes(rules: seq<Rule>, i: nat, z: char): (grown: seq<Rule>)
    requires i < |rules| && rules[i].rhs != []
    ensures |grown| >= |rules| + 2 && grown[..|rules|] == rules
  {
    var r := rules[i];
    var withZ := rules + [Rule(z, r.rhs[1..]), Rule(z, r.rhs[1..] + [z])];
    var all := IndicesOf(withZ, r.lhs);
    WithoutInRange(withZ, all, i);
    var grown := withZ + Appended(withZ, Without(all, i), r.lhs, [z]);
    assert grown[..|rules|] == rules;
    grown
  }

  /** The indices other than `i`, in order. */
  function Without(ix: seq<nat>, i: nat): seq<nat> {
    if ix == [] then []
    else Without(ix[..|ix| - 1], i) + (if ix[|ix| - 1] != i then [ix[|ix| - 1]] else [])
  }

  lemma {:induction false} WithoutMembers(ix: seq<nat>, i: nat)
    ensures forall k :: k in Without(ix, i) <==> k in ix && k != i
  {
    if ix != [] {
      WithoutMembers(ix[..|ix| - 1], i);
      assert ix == ix[..|ix| - 1] + [ix[|ix| - 1]];
    }
  }

  lemma WithoutInRange(rules: seq<Rule>, ix: seq<nat>, i: nat)
    requires InRange(rules, ix)
    ensures InRange(rules, Without(ix, i))
  {
    var w := Without(ix, i);
    WithoutMembers(ix, i);
    forall k | 0 <= k < |w|
      ensures w[k] < |rules|
    {
      assert w[k] in w;
      var m :| 0 <= m < |ix| && ix[m] == w[k];
    }
  }

  /** One pass of the `for` loop of remove_left_recursion: Finished when no
      rule starts with its own left side, Stuck on an empty right side or when
      no unused symbol is left, otherwise the rewrite of the first hit. */
  function RecursionStep(rules: seq<Rule>, nonTerminals: set<char>, isNonTerminal: char -> bool, pool: seq<char>): Outcome {
    var i := Scan(rules, RecursionTest(isNonTerminal));
    if i == |rules| then Finished
    else if rules[i].rhs == [] then Stuck
    else
      var z := Unused(pool, Used(rules, nonTerminals));
      if z.None? then Stuck else Next(RecursionRewrite(rules, i, z.value))
  }

  function RecursionStepper(nonTerminals: set<char>, isNonTerminal: char -> bool, pool: seq<char>): seq<Rule> -> Outcome {
    rules => RecursionStep(rules, nonTerminals, isNonTerminal, pool)
  }

  /** A non-empty right side that does not start with its own left side. */
  predicate NotSelfLed(r: Rule, isNonTerminal: char -> bool) {
    r.rhs != [] && !(isNonTerminal(r.rhs[0]) && r.lhs == r.rhs[0])
  }

  /** The recursion pass ends only when every right side is non-empty and no
      rule starts with its own left side. */
  lemma RecursionPassExit(rules: seq<Rule>, nonTerminals: set<char>, isNonTerminal: char -> bool, pool: seq<char>, fuel: nat)
    requires Pass(rules, RecursionStepper(nonTerminals, isNonTerminal, pool), fuel).Done?
    ensures forall r :: r in Pass(rules, RecursionStepper(nonTerminals, isNonTerminal, pool), fuel).rules ==> NotSelfLed(r, isNonTerminal)
  {
    var step := RecursionStepper(nonTerminals, isNonTerminal, pool);
    var out := Pass(rules, step, fuel).rules;
    PassExit(rules, step, fuel);
    assert RecursionStep(out, nonTerminals, isNonTerminal, pool).Finished?;
    NoRecursionLeft(out, isNonTerminal);
  }

  lemma NoRecursionLeft(rules: seq<Rule>, isNonTerminal: char -> bool)
    requires Scan(rules, RecursionTest(isNonTerminal)) == |rules|
    ensures forall r :: r in rules ==> NotSelfLed(r, isNonTerminal)
  {
    var v := RecursionTest(isNonTerminal);
    ScanAllSkipped(rules, v);
    forall r | r in rules
      ensures NotSelfLed(r, isNonTerminal)
    {
      assert v(r) == Skip;
    }
  }

  // What the passes promise.

  /** sort_rules ends only when every right side is non-empty and no rule
      starts with a non-terminal ranked below its left side. */
  lemma SortPassExit(rules: seq<Rule>, mapping: map<char, nat>, isNonTerminal: char -> bool, fuel: nat)
    requires Pass(rules, SubstStepper(SortTest(mapping, isNonTerminal)), fuel).Done?
    ensures forall r :: r in Pass(rules, SubstStepper(SortTest(mapping, isNonTerminal)), fuel).rules ==>
      r.rhs != [] && (isNonTerminal(r.rhs[0]) ==> r.lhs in mapping && r.rhs[0] in mapping && mapping[r.lhs] <= mapping[r.rhs[0]])
  {
    var v := SortTest(mapping, isNonTerminal);
    SubstPassExit(rules, v, fuel);
    forall r | r in Pass(rules, SubstStepper(v), fuel).rules
      ensures r.rhs != [] && (isNonTerminal(r.rhs[0]) ==> r.lhs in mapping && r.rhs[0] in mapping && mapping[r.lhs] <= mapping[r.rhs[0]])
    {
      assert v(r) == Skip;
    }
  }

  /** make_rhs_first_symbol_terminal ends only when every right side is
      non-empty and starts with a symbol that is not a non-terminal. */
  lemma LeadPassExit(rules: seq<Rule>, isNonTerminal: char -> bool, fuel: nat)
    requires Pass(rules, SubstStepper(LeadTest(isNonTerminal)), fuel).Done?
    ensures forall r :: r in Pass(rules, SubstStepper(LeadTest(isNonTerminal)), fuel).rules ==>
      r.rhs != [] && !isNonTerminal(r.rhs[0])
  {
    var v := LeadTest(isNonTerminal);
    SubstPassExit(rules, v, fuel);
    forall r | r in Pass(rules, SubstStepper(v), fuel).rules
      ensures r.rhs != [] && !isNonTerminal(r.rhs[0])
    {
      assert v(r) == Skip;
    }
  }

  /** A rule the pass fails on survives every substitution, so a
      substitution pass over such rules never ends normally: an empty right
      side, for one, makes it raise. */
  lemma FailingRuleBlocks(rules: seq<Rule>, v: Rule -> Verdict, fuel: nat, r: Rule)
    requires r in rules && v(r) == Fail
    ensures !Pass(rules, SubstStepper(v), fuel).Done?
  {
    var step := SubstStepper(v);
    var holds := (rs: seq<Rule>) => r in rs;
    forall rs | holds(rs) && step(rs).Next?
      ensures holds(step(rs).rules)
    {
      SubstStepKeeps(rs, v, r);
    }
    PassKeeps(rules, step, fuel, holds);
    if Pass(rules, step, fuel).Done? {
      SubstPassExit(rules, v, fuel);
    }
  }

  /** What every step preserves holds where a pass ends. */
  lemma {:induction false} PassKeeps(rules: seq<Rule>, step: seq<Rule> -> Outcome, fuel: nat, holds: seq<Rule> -> bool)
    requires holds(rules)
    requires forall rs :: holds(rs) && step(rs).Next? ==> holds(step(rs).rules)
    ensures Pass(rules, step, fuel).Done? ==> holds(Pass(rules, step, fuel).rules)
    decreases fuel
  {
    if step(rules).Next? && fuel > 0 {
      PassKeeps(step(rules).rules, step, fuel - 1, holds);
    }
  }

  /** A substitution step keeps every rule it does not rewrite. */
  lemma SubstStepKeeps(rules: seq<Rule>, v: Rule -> Verdict, r: Rule)
    requires r in rules && v(r) != Hit
    requires SubstStep(rules, v).Next?
    ensures r in SubstStep(rules, v).rules
  {
    var i := Scan(rules, v);
    var out := Substitute(rules, i);
    SubstituteMembers(rules, i);
    var j :| 0 <= j < |rules| && rules[j] == r;
    assert j != i;
    var k := if j < i then j else j - 1;
    assert out[..|rules| - 1][k] == r;
  }

  /** No right side is empty. */
  predicate NonEmptyBodies(rules: seq<Rule>) {
    forall r :: r in rules ==> r.rhs != []
  }

  /** Every left side and every non-terminal of a right side has a rank. */
  predicate Covered(rules: seq<Rule>, mapping: map<char, nat>, isNonTerminal: char -> bool) {
    forall r :: r in rules ==> r.lhs in mapping && forall c :: c in r.rhs && isNonTerminal(c) ==> c in mapping
  }

  lemma SubstituteKeeps(rules: seq<Rule>, i: nat, mapping: map<char, nat>, isNonTerminal: char -> bool)
    requires i < |rules| && rules[i].rhs != []
    requires NonEmptyBodies(rules) && Covered(rules, mapping, isNonTerminal)
    ensures NonEmptyBodies(Substitute(rules, i)) && Covered(Substitute(rules, i), mapping, isNonTerminal)
  {
    var out := Substitute(rules, i);
    SubstituteMembers(rules, i);
    forall q | q in out
      ensures q.rhs != [] && q.lhs in mapping && forall c :: c in q.rhs && isNonTerminal(c) ==> c in mapping
    {
      var k :| 0 <= k < |out| && out[k] == q;
      if k < |rules| - 1 {
        assert q in out[..|rules| - 1];
        assert q in rules;
      } else {
        assert q in out[|rules| - 1..];
        assert SubstitutedBody(rules, i, q);
        var j :| 0 <= j < |rules| && rules[j].lhs == rules[i].rhs[0] && q == Rule(rules[i].lhs, rules[j].rhs + rules[i].rhs[1..]);
        assert rules[j] in rules && rules[i] in rules;
        forall c | c in q.rhs && isNonTerminal(c)
          ensures c in mapping
        {
          if c !in rules[j].rhs {
            assert c in rules[i].rhs[1..];
          }
        }
      }
    }
  }

  /** With every symbol ranked and no empty right side, sort_rules never
      raises: no IndexError and no KeyError. */
  lemma {:induction false} SortPassNeverFails(rules: seq<Rule>, mapping: map<char, nat>, isNonTerminal: char -> bool, fuel: nat)
    requires NonEmptyBodies(rules) && Covered(rules, mapping, isNonTerminal)
    ensures !Pass(rules, SubstStepper(SortTest(mapping, isNonTerminal)), fuel).Failed?
    decreases fuel
  {
    var v := SortTest(mapping, isNonTerminal);
    var i := Scan(rules, v);
    if i < |rules| {
      assert rules[i] in rules;
      assert v(rules[i]) == Hit;
      if fuel > 0 {
        SubstituteKeeps(rules, i, mapping, isNonTerminal);
        SortPassNeverFails(Substitute(rules, i), mapping, isNonTerminal, fuel - 1);
      }
    }
  }

  lemma AllSymbolsHas(rules: seq<Rule>, k: nat, c: char)
    requires k < |rules| && c in RuleOrder(rules[k])
    ensures c in AllSymbols(rules)
    decreases |rules|
  {
    var n := |rules|;
    if k < n - 1 {
      assert rules[..n - 1][k] == rules[k];
      AllSymbolsHas(rules[..n - 1], k, c);
    }
  }

  /** The ranking covers the rules it was computed from, as long as every
      left side is a non-terminal. */
  lemma RankCovers(rules: seq<Rule>, isNonTerminal: char -> bool)
    requires forall r :: r in rules ==> isNonTerminal(r.lhs)
    ensures Covered(rules, RankMap(Order(AllSymbols(rules), isNonTerminal)), isNonTerminal)
  {
    var s := AllSymbols(rules);
    OrderMembers(s, isNonTerminal);
    forall r | r in rules
      ensures r.lhs in Order(s, isNonTerminal) && forall c :: c in r.rhs && isNonTerminal(c) ==> c in Order(s, isNonTerminal)
    {
      var k :| 0 <= k < |rules| && rules[k] == r;
      AllSymbolsHas(rules, k, r.lhs);
      forall c | c in r.rhs && isNonTerminal(c)
        ensures c in Order(s, isNonTerminal)
      {
        AllSymbolsHas(rules, k, c);
      }
    }
  }

  /** The recursion step on rule i, `A -> Aα`: `Z -> α` and `Z -> αZ` follow
      the kept rules, then exactly the rules `A -> βZ` for the other rules
      `A -> β`; rule i is the only one removed. */
  lemma RecursionRewriteMembers(rules: seq<Rule>, i: nat, z: char)
    requires i < |rules| && rules[i].rhs != [] && z != rules[i].lhs
    ensures var out := RecursionRewrite(rules, i, z);
      var a, alpha := rules[i].lhs, rules[i].rhs[1..];
      && out[..|rules| + 1] == rules[..i] + rules[i + 1..] + [Rule(z, alpha), Rule(z, alpha + [z])]
      && forall q :: q in out[|rules| + 1..] <==> OtherBodyPrimed(rules, i, z, q)
  {
    var r := rules[i];
    var alpha := r.rhs[1..];
    var withZ := rules + [Rule(z, alpha), Rule(z, alpha + [z])];
    var all := IndicesOf(withZ, r.lhs);
    WithoutInRange(withZ, all, i);
    var e := Appended(withZ, Without(all, i), r.lhs, [z]);
    var tail := [Rule(z, alpha), Rule(z, alpha + [z])] + e;
    var grown := WithPrimes(rules, i, z);
    assert grown == rules + tail;
    DropInPrefix(rules, tail, i);
    var out := RecursionRewrite(rules, i, z);
    assert out == rules[..i] + rules[i + 1..] + tail;
    assert out[|rules| + 1..] == e;
    PrimedBodiesMembers(rules, i, z);
  }

  /** Dropping a position of the first part of a concatenation. */
  lemma DropInPrefix(xs: seq<Rule>, ys: seq<Rule>, i: nat)
    requires i < |xs|
    ensures (xs + ys)[..i] + (xs + ys)[i + 1..] == xs[..i] + xs[i + 1..] + ys
  {
    assert (xs + ys)[..i] == xs[..i];
    assert (xs + ys)[i + 1..] == xs[i + 1..] + ys;
  }

  lemma PrimedBodiesMembers(rules: seq<Rule>, i: nat, z: char)
    requires i < |rules| && rules[i].rhs != [] && z != rules[i].lhs
    ensures var r := rules[i];
      var withZ := rules + [Rule(z, r.rhs[1..]), Rule(z, r.rhs[1..] + [z])];
      var all := IndicesOf(withZ, r.lhs);
      InRange(withZ, Without(all, i)) &&
      forall q :: q in Appended(withZ, Without(all, i), r.lhs, [z]) <==> OtherBodyPrimed(rules, i, z, q)
  {
    var r := rules[i];
    var a := r.lhs;
    var withZ := rules + [Rule(z, r.rhs[1..]), Rule(z, r.rhs[1..] + [z])];
    assert forall j :: 0 <= j < |rules| ==> withZ[j] == rules[j];
    assert forall j :: |rules| <= j < |withZ| ==> withZ[j].lhs == z;
    OtherIndices(rules, withZ, i, z);
    PrimedBodiesAt(rules, withZ, Without(IndicesOf(withZ, a), i), i, z);
  }

  /** The appended rules for indices that are exactly the other rules of the
      same left side are exactly those rules' bodies followed by `z`. */
  lemma PrimedBodiesAt(rules: seq<Rule>, withZ: seq<Rule>, ix: seq<nat>, i: nat, z: char)
    requires i < |rules| && |rules| <= |withZ|
    requires forall j :: 0 <= j < |rules| ==> withZ[j] == rules[j]
    requires InRange(withZ, ix)
    requires forall k :: 0 <= k < |ix| ==> ix[k] < |rules| && ix[k] != i && rules[ix[k]].lhs == rules[i].lhs
    requires forall j :: 0 <= j < |rules| && j != i && rules[j].lhs == rules[i].lhs ==> j in ix
    ensures forall q :: q in Appended(withZ, ix, rules[i].lhs, [z]) <==> OtherBodyPrimed(rules, i, z, q)
  {
    var a := rules[i].lhs;
    var e := Appended(withZ, ix, a, [z]);
    AppendedMembers(withZ, ix, a, [z]);
    forall q | q in e
      ensures OtherBodyPrimed(rules, i, z, q)
    {
      var k :| 0 <= k < |ix| && q == Rule(a, withZ[ix[k]].rhs + [z]);
      assert withZ[ix[k]] == rules[ix[k]];
    }
    forall q | OtherBodyPrimed(rules, i, z, q)
      ensures q in e
    {
      var j :| 0 <= j < |rules| && j != i && rules[j].lhs == a && q == Rule(a, rules[j].rhs + [z]);
      var k :| 0 <= k < |ix| && ix[k] == j;
      assert withZ[ix[k]] == rules[j];
    }
  }

  /** The indices find_rules_by_lhs returns after the two `Z` rules are
      appended, without rule i: exactly the other rules of the same left side. */
  lemma OtherIndices(rules: seq<Rule>, withZ: seq<Rule>, i: nat, z: char)
    requires i < |rules| && |rules| <= |withZ| && z != rules[i].lhs
    requires forall j :: 0 <= j < |rules| ==> withZ[j] == rules[j]
    requires forall j :: |rules| <= j < |withZ| ==> withZ[j].lhs == z
    ensures var ix := Without(IndicesOf(withZ, rules[i].lhs), i);
      && InRange(withZ, ix)
      && (forall k :: 0 <= k < |ix| ==> ix[k] < |rules| && ix[k] != i && rules[ix[k]].lhs == rules[i].lhs)
      && (forall j :: 0 <= j < |rules| && j != i && rules[j].lhs == rules[i].lhs ==> j in ix)
  {
    var a := rules[i].lhs;
    var all := IndicesOf(withZ, a);
    var ix := Without(all, i);
    WithoutMembers(all, i);
    WithoutInRange(withZ, all, i);
    forall k | 0 <= k < |ix|
      ensures ix[k] < |rules| && ix[k] != i && rules[ix[k]].lhs == a
    {
      assert ix[k] in ix;
      var m :| 0 <= m < |all| && all[m] == ix[k];
    }
    forall j | 0 <= j < |rules| && j != i && rules[j].lhs == a
      ensures j in ix
    {
      assert withZ[j].lhs == a;
    }
  }

  /** `q` is `A -> βZ` for a rule `A -> β` other than rule i. */
  ghost predicate OtherBodyPrimed(rules: seq<Rule>, i: nat, z: char, q: Rule)
    requires i < |rules|
  {
    exists j :: 0 <= j < |rules| && j != i && rules[j].lhs == rules[i].lhs && q == Rule(rules[i].lhs, rules[j].rhs + [z])
  }

  // Greibach.convert.

  /** The non-terminals after the start-symbol check of the Chomsky
      conversion. */
  function StartedNonTerminals(rules: seq<Rule>, nonTerminals: set<char>, start: char): set<char> {
    if StartSymbolUsed(rules, start) then nonTerminals + {'$'} else nonTerminals
  }

  /** The whole conversion: the Chomsky loop, the ranking, then sort_rules,
      remove_left_recursion and make_rhs_first_symbol_terminal, each for at
      most `fuel` steps. */
  function GreibachForm(rules: seq<Rule>, nonTerminals: set<char>, start: char, isTerminal: char -> bool,
                        isNonTerminal: char -> bool, pool: seq<char>, fuel: nat): PassResult
    requires NonTerminalPool(pool, isTerminal)
  {
    var nt := StartedNonTerminals(rules, nonTerminals, start);
    var chomsky := Run(WithStartRule(rules, start), nt, isTerminal, pool);
    if chomsky.None? then Failed
    else
      var mapping := RankMap(Order(AllSymbols(chomsky.value), isNonTerminal));
      var sorted := Pass(chomsky.value, SubstStepper(SortTest(mapping, isNonTerminal)), fuel);
      if !sorted.Done? then sorted
      else
        var plain := Pass(sorted.rules, RecursionStepper(nt, isNonTerminal, pool), fuel);
        if !plain.Done? then plain
        else Pass(plain.rules, SubstStepper(LeadTest(isNonTerminal)), fuel)
  }

  /** Greibach normal form where the conversion ends: every right side is
      non-empty and starts with a symbol that is not a non-terminal. */
  lemma GreibachFormShape(rules: seq<Rule>, nonTerminals: set<char>, start: char, isTerminal: char -> bool,
                          isNonTerminal: char -> bool, pool: seq<char>, fuel: nat)
    requires NonTerminalPool(pool, isTerminal)
    requires GreibachForm(rules, nonTerminals, start, isTerminal, isNonTerminal, pool, fuel).Done?
    ensures forall r :: r in GreibachForm(rules, nonTerminals, start, isTerminal, isNonTerminal, pool, fuel).rules ==>
      r.rhs != [] && !isNonTerminal(r.rhs[0])
  {
    var nt := StartedNonTerminals(rules, nonTerminals, start);
    var chomsky := Run(WithStartRule(rules, start), nt, isTerminal, pool).value;
    var mapping := RankMap(Order(AllSymbols(chomsky), isNonTerminal));
    var sorted := Pass(chomsky, SubstStepper(SortTest(mapping, isNonTerminal)), fuel);
    var plain := Pass(sorted.rules, RecursionStepper(nt, isNonTerminal, pool), fuel);
    LeadPassExit(plain.rules, isNonTerminal, fuel);
  }

  /** A rule with an empty right side makes the conversion raise or run out
      of fuel: it is never rewritten by the Chomsky loop and sort_rules
      cannot get past it. */
  lemma EmptyRuleRejected(rules: seq<Rule>, nonTerminals: set<char>, start: char, isTerminal: char -> bool,
                          isNonTerminal: char -> bool, pool: seq<char>, fuel: nat, r: Rule)
    requires NonTerminalPool(pool, isTerminal)
    requires r in rules && r.rhs == []
    ensures !GreibachForm(rules, nonTerminals, start, isTerminal, isNonTerminal, pool, fuel).Done?
  {
    var nt := StartedNonTerminals(rules, nonTerminals, start);
    var started := WithStartRule(rules, start);
    var c := Run(started, nt, isTerminal, pool);
    if c.Some? {
      var k :| 0 <= k < |started| && started[k] == r;
      RunExtends(started, nt, isTerminal, pool);
      assert c.value[k] == r;
      var mapping := RankMap(Order(AllSymbols(c.value), isNonTerminal));
      FailingRuleBlocks(c.value, SortTest(mapping, isNonTerminal), fuel, r);
    }
  }

  // The ranking, one symbol at a time.

  lemma OrderSnoc(s: seq<char>, c: char, isNonTerminal: char -> bool)
    ensures Order(s + [c], isNonTerminal) == Visit(Order(s, isNonTerminal), c, isNonTerminal)
  {
    assert (s + [c])[..|s|] == s;
  }

  lemma RankSnoc(o: seq<char>, c: char)
    requires c !in o
    ensures RankMap(o + [c]) == RankMap(o)[c := |o|]
    ensures ReverseMap(o + [c]) == ReverseMap(o)[|o| := c]
  {
    forall x | x in o
      ensures IndexOf(o + [c], x) == IndexOf(o, x)
    {
      IndexOfPrefix(o, [c], x);
    }
    IndexOfUnique(o + [c], c, |o|);
  }

  lemma WithoutSnoc(ix: seq<nat>, k: nat, skip: nat)
    requires k < |ix|
    ensures Without(ix[..k + 1], skip) == Without(ix[..k], skip) + (if ix[k] != skip then [ix[k]] else [])
  {
    assert ix[..k + 1][..k] == ix[..k];
  }

  lemma AppendedSnoc(rules: seq<Rule>, ix: seq<nat>, x: nat, lhs: char, suffix: seq<char>)
    requires InRange(rules, ix) && x < |rules|
    ensures InRange(rules, ix + [x])
    ensures Appended(rules, ix + [x], lhs, suffix) == Appended(rules, ix, lhs, suffix) + [Rule(lhs, rules[x].rhs + suffix)]
  {
    assert (ix + [x])[..|ix|] == ix;
  }

  lemma PassNext(rules: seq<Rule>, step: seq<Rule> -> Outcome, fuel: nat)
    requires step(rules).Next? && fuel > 0
    ensures Pass(rules, step, fuel) == Pass(step(rules).rules, step, fuel - 1)
  {
  }

  /** PassNext with the remaining fuel named. */
  lemma PassAdvance(rules: seq<Rule>, step: seq<Rule> -> Outcome, m: nat, n: nat)
    requires step(rules).Next? && m == n + 1
    ensures Pass(rules, step, m) == Pass(step(rules).rules, step, n)
  {
  }

  /** A substitution keeps its pass on the same course. */
  lemma SubstPassNext(before: seq<Rule>, after: seq<Rule>, v: Rule -> Verdict, m: nat, n: nat, start: seq<Rule>, total: nat)
    requires m == n + 1 && SubstStep(before, v) == Next(after)
    requires Pass(before, SubstStepper(v), m) == Pass(start, SubstStepper(v), total)
    ensures Pass(after, SubstStepper(v), n) == Pass(start, SubstStepper(v), total)
  {
    PassAdvance(before, SubstStepper(v), m, n);
  }

  /** The substitution pass ends where its step does not rewrite or the fuel is spent. */
  lemma SubstPassStop(before: seq<Rule>, v: Rule -> Verdict, f: nat, start: seq<Rule>, total: nat)
    requires !SubstStep(before, v).Next? || f == 0
    requires Pass(before, SubstStepper(v), f) == Pass(start, SubstStepper(v), total)
    ensures Halt(SubstStep(before, v), before) == Pass(start, SubstStepper(v), total)
  {
    PassStop(before, SubstStepper(v), f);
  }

  /** How a pass ends when its step does not rewrite or the fuel is spent. */
  function Halt(outcome: Outcome, rules: seq<Rule>): PassResult {
    match outcome
    case Finished => Done(rules)
    case Stuck => Failed
    case Next(_) => OutOfFuel
  }

  lemma PassStop(rules: seq<Rule>, step: seq<Rule> -> Outcome, fuel: nat)
    requires !step(rules).Next? || fuel == 0
    ensures Pass(rules, step, fuel) == Halt(step(rules), rules)
  {
  }

  /** A rewrite of the recursion pass keeps it on the same course. */
  lemma RecursionPassNext(before: seq<Rule>, after: seq<Rule>, nt: set<char>, isNonTerminal: char -> bool, pool: seq<char>,
                          m: nat, n: nat, start: seq<Rule>, total: nat)
    requires m == n + 1 && RecursionStep(before, nt, isNonTerminal, pool) == Next(after)
    requires Pass(before, RecursionStepper(nt, isNonTerminal, pool), m) == Pass(start, RecursionStepper(nt, isNonTerminal, pool), total)
    ensures Pass(after, RecursionStepper(nt, isNonTerminal, pool), n) == Pass(start, RecursionStepper(nt, isNonTerminal, pool), total)
  {
    PassAdvance(before, RecursionStepper(nt, isNonTerminal, pool), m, n);
  }

  /** The recursion pass ends where its step does not rewrite or the fuel is spent. */
  lemma RecursionPassStop(before: seq<Rule>, nt: set<char>, isNonTerminal: char -> bool, pool: seq<char>,
                          f: nat, start: seq<Rule>, total: nat)
    requires !RecursionStep(before, nt, isNonTerminal, pool).Next? || f == 0
    requires Pass(before, RecursionStepper(nt, isNonTerminal, pool), f) == Pass(start, RecursionStepper(nt, isNonTerminal, pool), total)
    ensures Halt(RecursionStep(before, nt, isNonTerminal, pool), before) == Pass(start, RecursionStepper(nt, isNonTerminal, pool), total)
  {
    PassStop(before, RecursionStepper(nt, isNonTerminal, pool), f);
  }

  lemma ScanUnique(rules: seq<Rule>, v: Rule -> Verdict, i: nat)
    requires i <= |rules|
    requires i < |rules| ==> v(rules[i]) != Skip
    requires forall j :: 0 <= j < i ==> v(rules[j]) == Skip
    ensures i == Scan(rules, v)
  {
  }

  /** The Greibach converter: the grammar's rules and non-terminals, which
      the passes rewrite in place, and the ranking. */
  class GreibachConverter {
    var rules: seq<Rule>
    var nonTerminals: set<char>
    var startSymbol: char
    var mapping: map<char, nat>
    var reverseMapping: map<nat, char>

    constructor (rules: seq<Rule>, nonTerminals: set<char>, startSymbol: char)
      ensures this.rules == rules && this.nonTerminals == nonTerminals && this.startSymbol == startSymbol
      ensures mapping == map[] && reverseMapping == map[]
    {
      this.rules := rules;
      this.nonTerminals := nonTerminals;
      this.startSymbol := startSymbol;
      mapping := map[];
      reverseMapping := map[];
    }

    /** The ranking holds for the symbols `s` visited so far, `n` being the
        next rank. */
    ghost predicate Ranked(s: seq<char>, isNonTerminal: char -> bool, n: nat)
      reads this
    {
      var o := Order(s, isNonTerminal);
      mapping == RankMap(o) && reverseMapping == ReverseMap(o) && n == |o|
    }

    /** The inner loop of map_non_terminal_to_ordered_symbols over the
        symbols of one rule. */
    method RankSymbols(syms: seq<char>, isNonTerminal: char -> bool, n: nat, ghost seen: seq<char>) returns (next: nat)
      requires Ranked(seen, isNonTerminal, n)
      modifies this`mapping, this`reverseMapping
      ensures Ranked(seen + syms, isNonTerminal, next)
    {
      next := n;
      var j := 0;
      assert seen + syms[..0] == seen;
      while j < |syms|
        invariant 0 <= j <= |syms|
        invariant Ranked(seen + syms[..j], isNonTerminal, next)
      {
        var c := syms[j];
        ghost var visited := seen + syms[..j];
        OrderSnoc(visited, c, isNonTerminal);
        if isNonTerminal(c) && c !in mapping {
          RankSnoc(Order(visited, isNonTerminal), c);
          mapping := mapping[c := next];
          reverseMapping := reverseMapping[next := c];
          next := next + 1;
        }
        assert seen + syms[..j + 1] == visited + [c];
        j := j + 1;
      }
      assert syms[..|syms|] == syms;
    }

    /** map_non_terminal_to_ordered_symbols: ranks the non-terminals 0, 1, ...
        in order of first occurrence, on fresh maps. */
    method MapNonTerminalToOrderedSymbols(isNonTerminal: char -> bool)
      requires mapping == map[] && reverseMapping == map[]
      modifies this`mapping, this`reverseMapping
      ensures mapping == RankMap(Order(AllSymbols(rules), isNonTerminal))
      ensures reverseMapping == ReverseMap(Order(AllSymbols(rules), isNonTerminal))
    {
      var currentNumber := 0;
      var k := 0;
      while k < |rules|
        invariant 0 <= k <= |rules|
        invariant Ranked(AllSymbols(rules[..k]), isNonTerminal, currentNumber)
      {
        currentNumber := RankSymbols(RuleOrder(rules[k]), isNonTerminal, currentNumber, AllSymbols(rules[..k]));
        assert rules[..k + 1][..k] == rules[..k];
        k := k + 1;
      }
      assert rules[..|rules|] == rules;
    }

    /** The `for` loop's search: the first rule the pass does not skip. */
    method FindFirst(v: Rule -> Verdict) returns (i: nat)
      ensures i == Scan(rules, v)
    {
      i := 0;
      while i < |rules| && v(rules[i]) == Skip
        invariant 0 <= i <= |rules|
        invariant forall j :: 0 <= j < i ==> v(rules[j]) == Skip
      {
        i := i + 1;
      }
      ScanUnique(rules, v, i);
    }

    /** The substitution step on rule i: the rules `A -> βα` are appended one
        by one, then the rule is removed. */
    method SubstituteAt(i: nat)
      requires i < |rules| && rules[i].rhs != []
      requires forall j :: 0 <= j < i ==> rules[j] != rules[i]
      modifies this`rules
      ensures rules == Substitute(old(rules), i)
    {
      var rule := rules[i];
      var indices := IndicesOf(rules, rule.rhs[0]);
      ghost var base := rules;
      var k := 0;
      while k < |indices|
        invariant 0 <= k <= |indices|
        invariant InRange(base, indices[..k])
        invariant rules == base + Appended(base, indices[..k], rule.lhs, rule.rhs[1..])
      {
        assert indices[..k + 1] == indices[..k] + [indices[k]];
        AppendBody(base, indices[..k], indices[k], rule.lhs, rule.rhs[1..]);
        k := k + 1;
      }
      assert indices[..|indices|] == indices;
      RemoveFirstAt(rules, i);
      rules := RemoveFirst(rules, rule);
    }

    /** The remove_left_recursion step on rule i with the fresh symbol `z`. */
    method RewriteRecursionAt(i: nat, z: char)
      requires i < |rules| && rules[i].rhs != []
      requires forall j :: 0 <= j < i ==> rules[j] != rules[i]
      modifies this`rules
      ensures rules == RecursionRewrite(old(rules), i, z)
    {
      var rule := rules[i];
      ghost var grown := WithPrimes(rules, i, z);
      rules := rules + [Rule(z, rule.rhs[1..])];
      rules := rules + [Rule(z, rule.rhs[1..] + [z])];
      ghost var withZ := rules;
      assert withZ == old(rules) + [Rule(z, rule.rhs[1..]), Rule(z, rule.rhs[1..] + [z])];
      var indices := IndicesOf(rules, rule.lhs);
      AppendOtherBodies(indices, i, rule.lhs, [z]);
      assert rules == withZ + Appended(withZ, Without(indices, i), rule.lhs, [z]);
      assert rules == grown;
      assert rules[i] == rule;
      RemoveFirstAt(rules, i);
      rules := RemoveFirst(rules, rule);
    }

    /** One round of those loops: the rule `lhs -> β suffix` for the body β
        of rule j of `base` is appended. */
    method AppendBody(ghost base: seq<Rule>, ghost done: seq<nat>, j: nat, lhs: char, suffix: seq<char>)
      requires InRange(base, done) && j < |base|
      requires rules == base + Appended(base, done, lhs, suffix)
      modifies this`rules
      ensures InRange(base, done + [j])
      ensures rules == base + Appended(base, done + [j], lhs, suffix)
    {
      AppendedSnoc(base, done, j, lhs, suffix);
      assert rules[j] == base[j];
      rules := rules + [Rule(lhs, rules[j].rhs + suffix)];
    }

    /** The loop of remove_left_recursion that appends `lhs -> β suffix` for
        the rules at `indices` other than `skip`. */
    method AppendOtherBodies(indices: seq<nat>, skip: nat, lhs: char, suffix: seq<char>)
      requires InRange(rules, indices)
      modifies this`rules
      ensures InRange(old(rules), Without(indices, skip))
      ensures rules == old(rules) + Appended(old(rules), Without(indices, skip), lhs, suffix)
    {
      ghost var base := rules;
      var k := 0;
      while k < |indices|
        invariant 0 <= k <= |indices|
        invariant InRange(base, Without(indices[..k], skip))
        invariant rules == base + Appended(base, Without(indices[..k], skip), lhs, suffix)
      {
        WithoutSnoc(indices, k, skip);
        ghost var w := Without(indices[..k], skip);
        if indices[k] != skip {
          assert Without(indices[..k + 1], skip) == w + [indices[k]];
          AppendBody(base, w, indices[k], lhs, suffix);
        } else {
          assert Without(indices[..k + 1], skip) == w;
        }
        k := k + 1;
      }
      assert indices[..|indices|] == indices;
    }

    /** One pass of the `for` loop of sort_rules or
        make_rhs_first_symbol_terminal: the substitution at the first rule the
        test hits. */
    method SubstStepOnce(v: Rule -> Verdict) returns (outcome: Outcome)
      modifies this`rules
      ensures outcome == SubstStep(old(rules), v)
      ensures rules == if outcome.Next? then outcome.rules else old(rules)
    {
      var i := FindFirst(v);
      if i == |rules| {
        return Finished;
      }
      if v(rules[i]) == Fail || rules[i].rhs == [] {
        return Stuck;
      }
      SubstituteAt(i);
      return Next(rules);
    }

    /** One round of the `while True` loop of sort_rules or
        make_rhs_first_symbol_terminal, kept on the course of its pass: `f`
        is the fuel before the round and `left` the fuel after it. */
    method SubstRound(v: Rule -> Verdict, f: nat, ghost start: seq<Rule>, ghost total: nat) returns (outcome: Outcome, left: nat)
      requires Pass(rules, SubstStepper(v), f) == Pass(start, SubstStepper(v), total)
      modifies this`rules
      ensures outcome.Next? && f > 0 ==> left < f && Pass(rules, SubstStepper(v), left) == Pass(start, SubstStepper(v), total)
      ensures !outcome.Next? || f == 0 ==> Halt(outcome, rules) == Pass(start, SubstStepper(v), total)
    {
      ghost var before := rules;
      outcome := SubstStepOnce(v);
      if !outcome.Next? || f == 0 {
        SubstPassStop(before, v, f, start, total);
        left := f;
      } else {
        left := f - 1;
        SubstPassNext(before, rules, v, f, left, start, total);
      }
    }

    /** The `while True` loop of sort_rules or make_rhs_first_symbol_terminal,
        for at most `fuel` substitutions. */
    method SubstitutionPass(v: Rule -> Verdict, fuel: nat) returns (result: PassResult)
      modifies this`rules
      ensures result == Pass(old(rules), SubstStepper(v), fuel)
      ensures result.Done? ==> rules == result.rules
    {
      ghost var start := rules;
      var f := fuel;
      while true
        invariant Pass(rules, SubstStepper(v), f) == Pass(start, SubstStepper(v), fuel)
        decreases f
      {
        var outcome, left := SubstRound(v, f, start, fuel);
        if !outcome.Next? || f == 0 {
          return Halt(outcome, rules);
        }
        f := left;
      }
    }

    /** sort_rules, with the test read from the current ranking. */
    method SortRules(isNonTerminal: char -> bool, fuel: nat) returns (result: PassResult)
      modifies this`rules
      ensures result == Pass(old(rules), SubstStepper(SortTest(old(mapping), isNonTerminal)), fuel)
      ensures result.Done? ==> rules == result.rules
    {
      result := SubstitutionPass(SortTest(mapping, isNonTerminal), fuel);
    }

    /** make_rhs_first_symbol_terminal. */
    method MakeRhsFirstSymbolTerminal(isNonTerminal: char -> bool, fuel: nat) returns (result: PassResult)
      modifies this`rules
      ensures result == Pass(old(rules), SubstStepper(LeadTest(isNonTerminal)), fuel)
      ensures result.Done? ==> rules == result.rules
    {
      result := SubstitutionPass(LeadTest(isNonTerminal), fuel);
    }

    /** One pass of the `for` loop of remove_left_recursion: the rewrite of
        the first rule that starts with its own left side. */
    method RecursionStepOnce(isNonTerminal: char -> bool, pool: seq<char>) returns (outcome: Outcome)
      modifies this`rules
      ensures outcome == RecursionStep(old(rules), nonTerminals, isNonTerminal, pool)
      ensures rules == if outcome.Next? then outcome.rules else old(rules)
    {
      var i := FindFirst(RecursionTest(isNonTerminal));
      if i == |rules| {
        return Finished;
      }
      if rules[i].rhs == [] {
        return Stuck;
      }
      var z := Unused(pool, Used(rules, nonTerminals));
      if z.None? {
        return Stuck;
      }
      RewriteRecursionAt(i, z.value);
      return Next(rules);
    }

    /** One round of the loop of remove_left_recursion, kept on the course of
        its pass: `f` is the fuel before the round and `left` the fuel after
        it. */
    method RecursionRound(ghost nt: set<char>, isNonTerminal: char -> bool, pool: seq<char>, f: nat,
                          ghost start: seq<Rule>, ghost total: nat)
      returns (outcome: Outcome, left: nat)
      requires nt == nonTerminals
      requires Pass(rules, RecursionStepper(nt, isNonTerminal, pool), f) == Pass(start, RecursionStepper(nt, isNonTerminal, pool), total)
      modifies this`rules
      ensures outcome.Next? && f > 0 ==>
        left < f && Pass(rules, RecursionStepper(nt, isNonTerminal, pool), left) == Pass(start, RecursionStepper(nt, isNonTerminal, pool), total)
      ensures !outcome.Next? || f == 0 ==>
        Halt(outcome, rules) == Pass(start, RecursionStepper(nt, isNonTerminal, pool), total)
    {
      ghost var before := rules;
      outcome := RecursionStepOnce(isNonTerminal, pool);
      if !outcome.Next? || f == 0 {
        RecursionPassStop(before, nt, isNonTerminal, pool, f, start, total);
        left := f;
      } else {
        left := f - 1;
        RecursionPassNext(before, rules, nt, isNonTerminal, pool, f, left, start, total);
      }
    }

    /** remove_left_recursion, for at most `fuel` rewrites. */
    method RemoveLeftRecursion(isNonTerminal: char -> bool, pool: seq<char>, fuel: nat) returns (result: PassResult)
      modifies this`rules
      ensures result == Pass(old(rules), RecursionStepper(old(nonTerminals), isNonTerminal, pool), fuel)
      ensures result.Done? ==> rules == result.rules
    {
      ghost var start, nt := rules, nonTerminals;
      var f := fuel;
      while true
        invariant Pass(rules, RecursionStepper(nt, isNonTerminal, pool), f) == Pass(start, RecursionStepper(nt, isNonTerminal, pool), fuel)
        decreases f
      {
        var outcome, left := RecursionRound(nt, isNonTerminal, pool, f, start, fuel);
        if !outcome.Next? || f == 0 {
          return Halt(outcome, rules);
        }
        f := left;
      }
    }

    /** Greibach.convert: the Chomsky conversion on the same grammar, then the
        ranking and the three passes, each for at most `fuel` steps. */
    method Convert(isTerminal: char -> bool, isNonTerminal: char -> bool, pool: seq<char>, fuel: nat)
      returns (result: PassResult)
      requires NonTerminalPool(pool, isTerminal)
      requires mapping == map[] && reverseMapping == map[]
      modifies this
      ensures result == GreibachForm(old(rules), old(nonTerminals), old(startSymbol), isTerminal, isNonTerminal, pool, fuel)
      ensures result.Done? ==> rules == result.rules
      ensures startSymbol == old(startSymbol)
      ensures var nt := StartedNonTerminals(old(rules), old(nonTerminals), old(startSymbol));
        var chomsky := Run(WithStartRule(old(rules), old(startSymbol)), nt, isTerminal, pool);
        if chomsky.None? then
          && rules == old(rules) && nonTerminals == old(nonTerminals)
          && mapping == map[] && reverseMapping == map[]
        else
          && nonTerminals == nt
          && mapping == RankMap(Order(AllSymbols(chomsky.value), isNonTerminal))
          && reverseMapping == ReverseMap(Order(AllSymbols(chomsky.value), isNonTerminal))
    {
      var chomsky := new ChomskyConverter(rules, nonTerminals, startSymbol);
      var ok := chomsky.Convert(isTerminal, pool);
      if !ok {
        return Failed;
      }
      rules := chomsky.rules;
      nonTerminals := chomsky.nonTerminals;
      MapNonTerminalToOrderedSymbols(isNonTerminal);
      result := SortRules(isNonTerminal, fuel);
      if !result.Done? {
        return;
      }
      result := RemoveLeftRecursion(isNonTerminal, pool, fuel);
      if !result.Done? {
        return;
      }
      result := MakeRhsFirstSymbolTerminal(isNonTerminal, fuel);
    }
  }
}
