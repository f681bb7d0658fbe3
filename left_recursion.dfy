// Left-recursion removal of grammar.py: after useless symbols and chain rules
// are removed, the rule keys are taken in order; for each key the earlier keys
// are substituted into its leading position and then its immediate left
// recursion is replaced by a fresh primed non-terminal.

module LeftRecursion {
  import opened Tokens
  import opened Cfg
  import opened Productivity
  import opened Reachability
  import opened ChainRules

  /** The non-terminal introduced for `a`: its lexem followed by a quote. */
  function Prime(a: Token): Token {
    Token(a.lexem + "'", "char")
  }

  predicate StartsWith(alt: seq<Token>, a: Token) {
    |alt| > 0 && alt[0] == a
  }

  /** The rules of `a` after its immediate left recursion is removed: every
      alternative that does not start with `a`, alone and followed by `p`. */
  function Others(alts: seq<seq<Token>>, a: Token, p: Token): seq<seq<Token>>
    requires [] !in alts
  {
    if alts == [] then []
    else
      var last := alts[|alts| - 1];
      Others(alts[..|alts| - 1], a, p) + (if last[0] == a then [] else [last, last + [p]])
  }

  /** The rules of the primed non-terminal: the tail of every alternative that
      starts with `a`, alone and followed by `p`. */
  function Tails(alts: seq<seq<Token>>, a: Token, p: Token): seq<seq<Token>>
    requires [] !in alts
  {
    if alts == [] then []
    else
      var last := alts[|alts| - 1];
      Tails(alts[..|alts| - 1], a, p) + (if last[0] == a then [last[1..], last[1..] + [p]] else [])
  }

  /** Every non-empty body followed by `tail`. */
  function Spliced(bodies: seq<seq<Token>>, tail: seq<Token>): seq<seq<Token>>
  {
    if bodies == [] then []
    else
      var last := bodies[|bodies| - 1];
      Spliced(bodies[..|bodies| - 1], tail) + (if |last + tail| > 0 then [last + tail] else [])
  }

  /** The alternatives of a key after the rules of `b` are substituted into
      every alternative that starts with `b`. */
  function Substituted(alts: seq<seq<Token>>, b: Token, bodies: seq<seq<Token>>): seq<seq<Token>>
    requires [] !in alts
  {
    if alts == [] then []
    else
      var last := alts[|alts| - 1];
      Substituted(alts[..|alts| - 1], b, bodies) + (if last[0] == b then Spliced(bodies, last[1..]) else [last])
  }

  /** The primed non-terminals of the first `n` keys. */
  ghost function Primes(order: seq<Token>, n: nat): set<Token>
    requires n <= |order|
  {
    set k | 0 <= k < n :: Prime(order[k])
  }

  /** The direct step on key `a`: None where the source indexes an empty
      alternative; otherwise the grammar unchanged when no alternative of `a`
      starts with `a`, or with the rules of `a` and of its primed non-terminal
      replaced. */
  function DirectAt(h: CFG, a: Token): Option<CFG> {
    if a !in h.rules then None
    else
    var alts := h.rules[a];
    if [] in alts then None
    else if exists alt :: alt in alts && alt[0] == a then
      var p := Prime(a);
      Some(h.(nonTerminals := h.nonTerminals + {p}, rules := h.rules[a := Others(alts, a, p)][p := Tails(alts, a, p)]))
    else Some(h)
  }

  /** The substitution of the rules of `b` into the alternatives of `a` that
      start with `b`: None where the source indexes an empty alternative. */
  function SubstAt(h: CFG, a: Token, b: Token): Option<CFG> {
    if a !in h.rules || b !in h.rules || [] in h.rules[a] then None
    else Some(h.(rules := h.rules[a := Substituted(h.rules[a], b, h.rules[b])]))
  }

  /** The substitutions of keys 0 .. j-1 into key i, in that order. */
  function SubstUpTo(h: CFG, order: seq<Token>, i: nat, j: nat): Option<CFG>
    requires j <= i < |order|
    decreases j
  {
    if j == 0 then Some(h)
    else
      var prev := SubstUpTo(h, order, i, j - 1);
      if prev.None? then None else SubstAt(prev.value, order[i], order[j - 1])
  }

  /** The grammar after key i is processed: substitutions of the earlier keys
      into it, then its direct step. */
  function Stage(g: CFG, order: seq<Token>, i: nat): Option<CFG>
    requires i < |order|
    decreases i
  {
    if i == 0 then DirectAt(g, order[0]) else Proceed(Stage(g, order, i - 1), order, i)
  }

  /** Key i processed after the earlier keys left `prev`. */
  function Proceed(prev: Option<CFG>, order: seq<Token>, i: nat): Option<CFG>
    requires i < |order|
  {
    if prev.None? then None
    else
      var substituted := SubstUpTo(prev.value, order, i, i);
      if substituted.None? then None else DirectAt(substituted.value, order[i])
  }

  /** The whole loop of remove_left_recursion over the key order; None where
      the source raises an IndexError (no keys, or an empty alternative). */
  function Eliminated(g: CFG, order: seq<Token>): Option<CFG>
  {
    if order == [] then None else Stage(g, order, |order| - 1)
  }

  /** The direct step as the source runs it: a scan for the first alternative
      starting with `a`, then the rebuild of both rule lists. */
  method DirectStep(h: CFG, a: Token) returns (r: Option<CFG>)
    ensures r == DirectAt(h, a)
  {
    if a !in h.rules {
      return None;
    }
    var alts := h.rules[a];
    var o := 0;
    while o < |alts|
      invariant 0 <= o <= |alts|
      invariant [] !in alts[..o]
      invariant forall alt :: alt in alts[..o] ==> alt[0] != a
    {
      if alts[o] == [] {
        assert alts[o] in alts;
        return None;
      }
      if alts[o][0] == a {
        var p := Prime(a);
        var prime: seq<seq<Token>> := [];
        var others: seq<seq<Token>> := [];
        var m := 0;
        while m < |alts|
          invariant 0 <= m <= |alts|
          invariant [] !in alts[..m]
          invariant prime == Tails(alts[..m], a, p) && others == Others(alts[..m], a, p)
        {
          var alt := alts[m];
          if alt == [] {
            assert alts[m] in alts;
            return None;
          }
          assert alts[..m + 1][..m] == alts[..m];
          if alt[0] == a {
            prime := prime + [alt[1..]];
            prime := prime + [alt[1..] + [p]];
          } else {
            others := others + [alt];
            others := others + [alt + [p]];
          }
          m := m + 1;
        }
        assert alts[..m] == alts;
        assert alts[o] in alts;
        var rules := h.rules[a := others];
        r := Some(h.(nonTerminals := h.nonTerminals + {p}, rules := rules[p := prime]));
        return;
      }
      assert alts[..o + 1] == alts[..o] + [alts[o]];
      o := o + 1;
    }
    assert alts[..o] == alts;
    r := Some(h);
  }

  /** The substitution as the source runs it: a new list built alternative by
      alternative and body by body. */
  method SubstStep(h: CFG, a: Token, b: Token) returns (r: Option<CFG>)
    ensures r == SubstAt(h, a, b)
  {
    if a !in h.rules || b !in h.rules {
      return None;
    }
    var alts := h.rules[a];
    var bodies := h.rules[b];
    var result: seq<seq<Token>> := [];
    var o := 0;
    while o < |alts|
      invariant 0 <= o <= |alts|
      invariant [] !in alts[..o]
      invariant result == Substituted(alts[..o], b, bodies)
    {
      var alt := alts[o];
      if alt == [] {
        assert alts[o] in alts;
        return None;
      }
      assert alts[..o + 1][..o] == alts[..o];
      if alt[0] == b {
        var n := 0;
        var spliced: seq<seq<Token>> := [];
        while n < |bodies|
          invariant 0 <= n <= |bodies|
          invariant spliced == Spliced(bodies[..n], alt[1..])
        {
          assert bodies[..n + 1][..n] == bodies[..n];
          var body := bodies[n];
          var k := 1;
          while k < |alt|
            invariant 1 <= k <= |alt|
            invariant body == bodies[n] + alt[1..k]
          {
            body := body + [alt[k]];
            k := k + 1;
          }
          assert alt[1..k] == alt[1..];
          if |body| > 0 {
            spliced := spliced + [body];
          }
          n := n + 1;
        }
        assert bodies[..n] == bodies;
        result := result + spliced;
      } else {
        result := result + [alt];
      }
      o := o + 1;
    }
    assert alts[..o] == alts;
    r := Some(h.(rules := h.rules[a := result]));
  }

  /** The inner loop of remove_left_recursion: the rules of keys 0 .. i-1
      substituted, in order, into key i. */
  method SubstituteEarlier(h: CFG, order: seq<Token>, i: nat) returns (r: Option<CFG>)
    requires 0 < i < |order|
    ensures r == SubstUpTo(h, order, i, i)
  {
    var cur := h;
    var j := 0;
    while true
      invariant 0 <= j < i
      invariant SubstUpTo(h, order, i, j) == Some(cur)
      decreases i - j
    {
      var t := SubstStep(cur, order[i], order[j]);
      if t.None? {
        SubstUpToNoneStays(h, order, i, j + 1, i);
        return None;
      }
      cur := t.value;
      if j == i - 1 {
        return Some(cur);
      }
      j := j + 1;
    }
  }

  /** One pass of the outer loop for key i: the substitution of the earlier
      keys, then the direct step. */
  method ProcessKey(h: CFG, order: seq<Token>, i: nat) returns (r: Option<CFG>)
    requires 0 < i < |order|
    ensures r == Proceed(Some(h), order, i)
  {
    var t := SubstituteEarlier(h, order, i);
    if t.None? {
      return None;
    }
    r := DirectStep(t.value, order[i]);
  }

  /** One round of the main loop: key i + 1 processed after the stage of
      key i left `h`. */
  method NextStage(ghost g: CFG, order: seq<Token>, i: nat, h: CFG) returns (d: Option<CFG>)
    requires i + 1 < |order|
    requires Stage(g, order, i) == Some(h)
    ensures d == Stage(g, order, i + 1)
  {
    d := ProcessKey(h, order, i + 1);
  }

  /** The main loop of remove_left_recursion over a given key order: the
      direct step on the first key, then for each further key the substitution
      of the earlier keys followed by its direct step. */
  method EliminateLeftRecursion(g: CFG, order: seq<Token>) returns (r: Option<CFG>)
    ensures r == Eliminated(g, order)
  {
    if |order| == 0 {
      return None;
    }
    var first := DirectStep(g, order[0]);
    FirstStage(g, order, first);
    if first.None? {
      StageNoneStays(g, order, 0, |order| - 1);
      return None;
    }
    var h := first.value;
    var i := 0;
    while i < |order| - 1
      invariant 0 <= i < |order|
      invariant Stage(g, order, i) == Some(h)
    {
      var d := NextStage(g, order, i, h);
      if d.None? {
        StageNoneStays(g, order, i + 1, |order| - 1);
        return None;
      }
      h := d.value;
      i := i + 1;
    }
    return Some(h);
  }

  lemma FirstStage(g: CFG, order: seq<Token>, d: Option<CFG>)
    requires |order| > 0 && d == DirectAt(g, order[0])
    ensures Stage(g, order, 0) == d
  {
  }

  /** Once a substitution fails, the rest of the sequence fails too. */
  lemma {:induction false} SubstUpToNoneStays(h: CFG, order: seq<Token>, i: nat, j: nat, n: nat)
    requires j <= n <= i < |order|
    requires SubstUpTo(h, order, i, j).None?
    ensures SubstUpTo(h, order, i, n).None?
    decreases n
  {
    if n > j {
      SubstUpToNoneStays(h, order, i, j, n - 1);
    }
  }

  /** Once a stage fails, every later stage fails too. */
  lemma {:induction false} StageNoneStays(g: CFG, order: seq<Token>, i: nat, n: nat)
    requires i <= n < |order|
    requires Stage(g, order, i).None?
    ensures Stage(g, order, n).None?
    ensures n == |order| - 1 ==> Eliminated(g, order).None?
    decreases n
  {
    if n > i {
      StageNoneStays(g, order, i, n - 1);
      assert Stage(g, order, n) == Proceed(Stage(g, order, n - 1), order, n);
    }
  }

  // Membership of the rebuilt rule lists.

  lemma {:induction false} OthersMembers(alts: seq<seq<Token>>, a: Token, p: Token)
    requires [] !in alts
    ensures forall x :: x in Others(alts, a, p) <==>
              exists alt :: alt in alts && !StartsWith(alt, a) && (x == alt || x == alt + [p])
  {
    if alts != [] {
      var init, last := alts[..|alts| - 1], alts[|alts| - 1];
      assert alts == init + [last];
      OthersMembers(init, a, p);
    }
  }

  lemma {:induction false} TailsMembers(alts: seq<seq<Token>>, a: Token, p: Token)
    requires [] !in alts
    ensures forall x :: x in Tails(alts, a, p) <==>
              exists alt :: alt in alts && StartsWith(alt, a) && (x == alt[1..] || x == alt[1..] + [p])
  {
    if alts != [] {
      var init, last := alts[..|alts| - 1], alts[|alts| - 1];
      assert alts == init + [last];
      TailsMembers(init, a, p);
    }
  }

  lemma {:induction false} SplicedMembers(bodies: seq<seq<Token>>, tail: seq<Token>)
    ensures forall x :: x in Spliced(bodies, tail) <==> x != [] && exists body :: body in bodies && x == body + tail
  {
    if bodies != [] {
      var init, last := bodies[..|bodies| - 1], bodies[|bodies| - 1];
      assert bodies == init + [last];
      SplicedMembers(init, tail);
    }
  }

  lemma {:induction false} SubstitutedMembers(alts: seq<seq<Token>>, b: Token, bodies: seq<seq<Token>>)
    requires [] !in alts
    ensures forall x :: x in Substituted(alts, b, bodies) <==>
              || (x in alts && !StartsWith(x, b))
              || (x != [] && exists alt, body :: alt in alts && StartsWith(alt, b) && body in bodies && x == body + alt[1..])
  {
    if alts != [] {
      var init, last := alts[..|alts| - 1], alts[|alts| - 1];
      assert alts == init + [last];
      SubstitutedMembers(init, b, bodies);
      SplicedMembers(bodies, last[1..]);
    }
  }

  // What each step leaves alone.

  /** The direct step keeps the axiom and the terminals, adds at most the
      primed non-terminal, and changes no rule other than those of `a` and of
      its primed non-terminal. */
  lemma DirectAtFrame(h: CFG, a: Token)
    requires DirectAt(h, a).Some?
    ensures var r := DirectAt(h, a).value;
      && a in h.rules && [] !in h.rules[a]
      && r.axiom == h.axiom && r.terminals == h.terminals
      && h.nonTerminals <= r.nonTerminals <= h.nonTerminals + {Prime(a)}
      && h.rules.Keys <= r.rules.Keys <= h.rules.Keys + {Prime(a)}
      && (forall k :: k in h.rules && k != a && k != Prime(a) ==> r.rules[k] == h.rules[k])
  {
  }

  /** A substitution changes only the rules of `a`. */
  lemma SubstAtFrame(h: CFG, a: Token, b: Token)
    requires SubstAt(h, a, b).Some?
    ensures var r := SubstAt(h, a, b).value;
      && a in h.rules && b in h.rules && [] !in h.rules[a]
      && r == h.(rules := h.rules[a := Substituted(h.rules[a], b, h.rules[b])])
      && r.rules.Keys == h.rules.Keys
      && (forall k :: k in h.rules && k != a ==> r.rules[k] == h.rules[k])
  {
  }

  lemma {:induction false} SubstUpToFrame(h: CFG, order: seq<Token>, i: nat, j: nat)
    requires j <= i < |order|
    requires SubstUpTo(h, order, i, j).Some?
    ensures var r := SubstUpTo(h, order, i, j).value;
      && r.axiom == h.axiom && r.terminals == h.terminals && r.nonTerminals == h.nonTerminals
      && r.rules.Keys == h.rules.Keys
      && (forall k :: k in h.rules && k != order[i] ==> r.rules[k] == h.rules[k])
    decreases j
  {
    if j > 0 {
      SubstUpToFrame(h, order, i, j - 1);
      SubstAtFrame(SubstUpTo(h, order, i, j - 1).value, order[i], order[j - 1]);
    }
  }

  /** Every stage keeps the axiom and the terminals, keeps every non-terminal
      and rule key, and adds only primed non-terminals of processed keys. */
  lemma {:induction false} StageShape(g: CFG, order: seq<Token>, i: nat)
    requires i < |order| && Stage(g, order, i).Some?
    ensures var r := Stage(g, order, i).value;
      && r.axiom == g.axiom && r.terminals == g.terminals
      && g.nonTerminals <= r.nonTerminals <= g.nonTerminals + Primes(order, i + 1)
      && g.rules.Keys <= r.rules.Keys <= g.rules.Keys + Primes(order, i + 1)
    decreases i
  {
    assert Prime(order[i]) in Primes(order, i + 1);
    if i == 0 {
      DirectAtFrame(g, order[0]);
    } else {
      var prev := Stage(g, order, i - 1).value;
      StageShape(g, order, i - 1);
      assert Primes(order, i) <= Primes(order, i + 1);
      SubstUpToFrame(prev, order, i, i);
      DirectAtFrame(SubstUpTo(prev, order, i, i).value, order[i]);
    }
  }

  // No processed key's alternative starts with the same or an earlier key.

  ghost predicate Distinct(order: seq<Token>) {
    forall k, m :: 0 <= k < m < |order| ==> order[k] != order[m]
  }

  /** No primed non-terminal of a key is itself one of the keys. */
  ghost predicate PrimesFresh(order: seq<Token>) {
    forall k, m :: 0 <= k < |order| && 0 <= m < |order| ==> Prime(order[k]) != order[m]
  }

  /** No alternative starts with one of the first `n` keys. */
  ghost predicate Avoids(alts: seq<seq<Token>>, order: seq<Token>, n: nat)
    requires n <= |order|
  {
    forall alt, j :: alt in alts && 0 <= j < n ==> !StartsWith(alt, order[j])
  }

  /** The first `n` keys have rules, none of them empty, and no alternative of
      key k starts with any of keys 0 .. k. */
  ghost predicate Ordered(h: CFG, order: seq<Token>, n: nat)
    requires n <= |order|
  {
    forall k :: 0 <= k < n ==>
      order[k] in h.rules && [] !in h.rules[order[k]] && Avoids(h.rules[order[k]], order, k + 1)
  }

  lemma DirectKeepsOrdered(h: CFG, order: seq<Token>, i: nat)
    requires i < |order| && Distinct(order) && PrimesFresh(order)
    requires Ordered(h, order, i)
    requires order[i] in h.rules && Avoids(h.rules[order[i]], order, i)
    requires DirectAt(h, order[i]).Some?
    ensures Ordered(DirectAt(h, order[i]).value, order, i + 1)
  {
    var a := order[i];
    var p := Prime(a);
    var r := DirectAt(h, a).value;
    DirectAtFrame(h, a);
    var alts := h.rules[a];
    if exists alt :: alt in alts && alt[0] == a {
      assert r.rules[a] == Others(alts, a, p);
      OthersMembers(alts, a, p);
      forall x, j | x in r.rules[a] && 0 <= j < i + 1
        ensures x != [] && !StartsWith(x, order[j])
      {
        var alt :| alt in alts && !StartsWith(alt, a) && (x == alt || x == alt + [p]);
        assert x[0] == alt[0];
      }
    }
  }

  lemma SubstKeepsOrdered(h: CFG, order: seq<Token>, i: nat, j: nat)
    requires j < i < |order| && Distinct(order)
    requires Ordered(h, order, i)
    requires order[i] in h.rules && Avoids(h.rules[order[i]], order, j)
    requires SubstAt(h, order[i], order[j]).Some?
    ensures var r := SubstAt(h, order[i], order[j]).value;
      Ordered(r, order, i) && order[i] in r.rules && Avoids(r.rules[order[i]], order, j + 1)
  {
    var a, b := order[i], order[j];
    var r := SubstAt(h, a, b).value;
    SubstAtFrame(h, a, b);
    SubstitutedMembers(h.rules[a], b, h.rules[b]);
    forall x, m | x in r.rules[a] && 0 <= m < j + 1
      ensures !StartsWith(x, order[m])
    {
      if !(x in h.rules[a] && !StartsWith(x, b)) {
        var alt, body :| alt in h.rules[a] && StartsWith(alt, b) && body in h.rules[b] && x == body + alt[1..];
        assert body != [] && !StartsWith(body, order[m]);
        assert x[0] == body[0];
      }
    }
  }

  lemma {:induction false} SubstUpToKeepsOrdered(h: CFG, order: seq<Token>, i: nat, j: nat)
    requires j <= i < |order| && Distinct(order)
    requires Ordered(h, order, i) && order[i] in h.rules
    requires SubstUpTo(h, order, i, j).Some?
    ensures var r := SubstUpTo(h, order, i, j).value;
      Ordered(r, order, i) && order[i] in r.rules && Avoids(r.rules[order[i]], order, j)
    decreases j
  {
    if j > 0 {
      SubstUpToKeepsOrdered(h, order, i, j - 1);
      SubstKeepsOrdered(SubstUpTo(h, order, i, j - 1).value, order, i, j - 1);
    }
  }

  lemma {:induction false} StageOrdered(g: CFG, order: seq<Token>, i: nat)
    requires i < |order| && Distinct(order) && PrimesFresh(order)
    requires Stage(g, order, i).Some?
    ensures Ordered(Stage(g, order, i).value, order, i + 1)
    decreases i
  {
    if i == 0 {
      DirectAtFrame(g, order[0]);
      DirectKeepsOrdered(g, order, 0);
    } else {
      var prev := Stage(g, order, i - 1).value;
      StageOrdered(g, order, i - 1);
      StageShape(g, order, i - 1);
      var s := SubstUpTo(prev, order, i, i).value;
      DirectAtFrame(s, order[i]);
      SubstUpToFrame(prev, order, i, i);
      SubstUpToKeepsOrdered(prev, order, i, i);
      DirectKeepsOrdered(s, order, i);
    }
  }

  /** After remove_left_recursion's loop, for every key in the order, each
      alternative is non-empty and starts with no key at or before it in the
      order; in particular no key is immediately left-recursive. */
  lemma NoLeftRecursion(g: CFG, order: seq<Token>)
    requires Distinct(order) && PrimesFresh(order)
    requires Eliminated(g, order).Some?
    ensures var h := Eliminated(g, order).value;
      forall k, j, alt :: 0 <= j <= k < |order| && order[k] in h.rules && alt in h.rules[order[k]] ==>
        alt != [] && !StartsWith(alt, order[j])
    ensures forall k :: 0 <= k < |order| ==> order[k] in Eliminated(g, order).value.rules
  {
    StageOrdered(g, order, |order| - 1);
  }

  // When the loop succeeds.

  /** The keys after position i still have the rules they had in `g`. */
  ghost predicate Untouched(h: CFG, g: CFG, order: seq<Token>, i: nat) {
    forall k :: i < k < |order| ==> order[k] in h.rules && order[k] in g.rules && h.rules[order[k]] == g.rules[order[k]]
  }

  lemma {:induction false} SubstUpToSucceeds(h: CFG, order: seq<Token>, i: nat, j: nat)
    requires j <= i < |order|
    requires forall m :: 0 <= m <= i ==> order[m] in h.rules
    requires [] !in h.rules[order[i]]
    ensures SubstUpTo(h, order, i, j).Some?
    ensures [] !in SubstUpTo(h, order, i, j).value.rules[order[i]]
    decreases j
  {
    if j > 0 {
      SubstUpToSucceeds(h, order, i, j - 1);
      var r := SubstUpTo(h, order, i, j - 1).value;
      SubstUpToFrame(h, order, i, j - 1);
      SubstitutedMembers(r.rules[order[i]], order[j - 1], r.rules[order[j - 1]]);
    }
  }

  lemma {:induction false} StageSucceeds(g: CFG, order: seq<Token>, i: nat)
    requires i < |order| && Distinct(order) && PrimesFresh(order)
    requires forall k :: 0 <= k < |order| ==> order[k] in g.rules && [] !in g.rules[order[k]]
    ensures Stage(g, order, i).Some?
    ensures Untouched(Stage(g, order, i).value, g, order, i)
    decreases i
  {
    if i == 0 {
      DirectAtFrame(g, order[0]);
    } else {
      StageSucceeds(g, order, i - 1);
      StageAdvances(g, order, i);
    }
  }

  /** One step of StageSucceeds: key i is processed without failure and the
      keys after it keep their rules. */
  lemma StageAdvances(g: CFG, order: seq<Token>, i: nat)
    requires 0 < i < |order| && Distinct(order) && PrimesFresh(order)
    requires forall k :: 0 <= k < |order| ==> order[k] in g.rules && [] !in g.rules[order[k]]
    requires Stage(g, order, i - 1).Some?
    requires Untouched(Stage(g, order, i - 1).value, g, order, i - 1)
    ensures Stage(g, order, i).Some?
    ensures Untouched(Stage(g, order, i).value, g, order, i)
  {
    StageShape(g, order, i - 1);
    StageAdvancesFrom(g, order, i, Stage(g, order, i - 1).value);
  }

  lemma StageAdvancesFrom(g: CFG, order: seq<Token>, i: nat, prev: CFG)
    requires 0 < i < |order| && Distinct(order) && PrimesFresh(order)
    requires forall k :: 0 <= k < |order| ==> order[k] in g.rules
    requires [] !in g.rules[order[i]]
    requires g.rules.Keys <= prev.rules.Keys
    requires Untouched(prev, g, order, i - 1)
    ensures Proceed(Some(prev), order, i).Some?
    ensures Untouched(Proceed(Some(prev), order, i).value, g, order, i)
  {
    SubstUpToSucceeds(prev, order, i, i);
    SubstUpToFrame(prev, order, i, i);
    var s := SubstUpTo(prev, order, i, i).value;
    DirectAtFrame(s, order[i]);
  }

  /** The loop runs to the end whenever every key in the order has rules and no
      empty alternative, and no primed name collides with a key. */
  lemma EliminatedSucceeds(g: CFG, order: seq<Token>)
    requires |order| > 0 && Distinct(order) && PrimesFresh(order)
    requires forall k :: 0 <= k < |order| ==> order[k] in g.rules && [] !in g.rules[order[k]]
    ensures Eliminated(g, order).Some?
  {
    StageSucceeds(g, order, |order| - 1);
  }

  // The grammar the loop starts from has no empty alternative.

  ghost predicate NoEmptyAlternative(g: CFG) {
    forall k, alt :: k in g.rules && alt in g.rules[k] ==> alt != []
  }

  lemma WithoutUnreachableNoEmpty(g: CFG)
    requires NoEmptyAlternative(g)
    ensures NoEmptyAlternative(WithoutUnreachable(g))
  {
  }

  /** remove_useless_symbols leaves no empty alternative when the language is
      not empty: every kept alternative is a good one. */
  lemma WithoutUselessNoEmpty(g: CFG)
    requires g.axiom in Productive(g)
    ensures NoEmptyAlternative(WithoutUseless(g))
  {
    var p := Prune(g, Productive(g));
    forall k, alt | k in p.rules && alt in p.rules[k]
      ensures alt != []
    {
      assert Good(g, alt, Productive(g));
    }
    WithoutUnreachableNoEmpty(p);
  }

  /** remove_chain_rules adds no empty alternative. */
  lemma ChainRemovalNoEmpty(g: CFG, rules: map<Token, seq<seq<Token>>>)
    requires NoEmptyAlternative(g) && ChainFreeRules(g, rules)
    ensures NoEmptyAlternative(ChainFreeGrammar(g, rules))
  {
    var h := CFG(g.nonTerminals, g.terminals, rules, g.axiom);
    forall k, alt | k in h.rules && alt in h.rules[k]
      ensures alt != []
    {
      assert Offered(g, k, alt);
    }
    WithoutUnreachableNoEmpty(h);
  }

  // remove_left_recursion as a whole.

  /** tuple(rules): the rule keys in some order, each once. */
  method KeyOrder(rules: map<Token, seq<seq<Token>>>) returns (order: seq<Token>)
    ensures Distinct(order)
    ensures forall t :: t in order <==> t in rules
  {
    order := [];
    var left := rules.Keys;
    while left != {}
      invariant left <= rules.Keys
      invariant Distinct(order)
      invariant forall t :: t in order <==> t in rules && t !in left
      decreases left
    {
      var t :| t in left;
      order := order + [t];
      left := left - {t};
    }
  }

  /** The grammar remove_left_recursion returns for an empty language. */
  function EmptyLanguageGrammar(g: CFG): CFG {
    CFG({g.axiom}, {}, map[g.axiom := [[Epsilon]]], g.axiom)
  }

  /** remove_left_recursion: for an empty language the one-rule grammar of the
      axiom; otherwise useless symbols and chain rules are removed and the loop
      runs over the remaining keys in some order. None stands for the
      IndexError the source raises. */
  method RemoveLeftRecursion(g: CFG) returns (r: Option<CFG>, simplified: CFG, order: seq<Token>)
    ensures g.axiom !in Productive(g) ==> r == Some(EmptyLanguageGrammar(g))
    ensures g.axiom in Productive(g) ==>
              && NoEmptyAlternative(simplified)
              && (exists rules :: ChainFreeRules(WithoutUseless(g), rules) && simplified == ChainFreeGrammar(WithoutUseless(g), rules))
              && Distinct(order) && (forall t :: t in order <==> t in simplified.rules)
              && r == Eliminated(simplified, order)
  {
    var nonEmpty := IsNotEmpty(g);
    if !nonEmpty {
      return Some(EmptyLanguageGrammar(g)), g, [];
    }
    var useless := RemoveUselessSymbols(g);
    WithoutUselessNoEmpty(g);
    simplified := RemoveChainRules(useless);
    ghost var rules :| ChainFreeRules(useless, rules) && simplified == ChainFreeGrammar(useless, rules);
    ChainRemovalNoEmpty(useless, rules);
    WithoutUselessAllUseful(g);
    order := KeyOrder(simplified.rules);
    r := EliminateLeftRecursion(simplified, order);
  }

  /** For a non-empty language, remove_left_recursion succeeds whenever the
      simplified grammar has a rule and no primed name collides with a key, and
      then no key of the simplified grammar is left-recursive through the
      order. */
  lemma RemoveLeftRecursionOutcome(simplified: CFG, order: seq<Token>)
    requires NoEmptyAlternative(simplified)
    requires Distinct(order) && (forall t :: t in order <==> t in simplified.rules)
    requires order != [] && PrimesFresh(order)
    ensures Eliminated(simplified, order).Some?
    ensures var h := Eliminated(simplified, order).value;
      forall k, j, alt :: 0 <= j <= k < |order| && order[k] in h.rules && alt in h.rules[order[k]] ==>
        alt != [] && !StartsWith(alt, order[j])
  {
    forall k | 0 <= k < |order|
      ensures order[k] in simplified.rules && [] !in simplified.rules[order[k]]
    {
      assert order[k] in order;
    }
    EliminatedSucceeds(simplified, order);
    NoLeftRecursion(simplified, order);
  }
}
