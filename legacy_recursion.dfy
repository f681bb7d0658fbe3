// Left-recursion removal of main.py. The rule keys are taken in the order
// captured once from the input; for each key the earlier keys are substituted
// into its leading position (all leading copies of the earlier key stripped),
// then its immediate left recursion is replaced by the primed non-terminal.
// The substitution is stated for both splices: the methods run the one
// main.py writes, and the ordering and success lemmas hold for either.

module LegacyRecursion {
  import opened Cfg
  import opened Legacy

  /** The non-terminal introduced for `a`: `a` followed by a quote. */
  function Prime(a: string): string {
    a + "'"
  }

  predicate StartsWith(alt: Alt, a: string) {
    |Symbols(alt)| > 0 && Symbols(alt)[0] == a
  }

  /** Some alternative is empty: indexing its first symbol raises IndexError. */
  predicate HasEmpty(alts: seq<Alt>) {
    exists alt :: alt in alts && Symbols(alt) == []
  }

  /** The number of leading copies of `a`. */
  function Lead(syms: seq<string>, a: string): (k: nat)
    ensures k <= |syms|
    ensures forall m :: 0 <= m < k ==> syms[m] == a
    ensures k < |syms| ==> syms[k] != a
  {
    if |syms| > 0 && syms[0] == a then 1 + Lead(syms[1..], a) else 0
  }

  /** rule[k:]: a string slices to a string, a list to a list. */
  function Slice(alt: Alt, k: nat): Alt
    requires k <= |Symbols(alt)|
  {
    match alt
    case Str(s) => Str(s[k..])
    case Lst(items) => Lst(items[k..])
  }

  lemma SliceSymbols(alt: Alt, k: nat)
    requires k <= |Symbols(alt)|
    ensures Symbols(Slice(alt, k)) == Symbols(alt)[k..]
  {
    if alt.Str? {
      assert |Symbols(alt)| == |alt.s|;
      assert forall m :: 0 <= m < |alt.s| - k ==> Symbols(Slice(alt, k))[m] == Symbols(alt)[k + m];
    }
  }

  /** list(rule) + [p]: the symbols of the alternative followed by `p`. */
  function Extend(alt: Alt, p: string): Alt {
    Lst(Symbols(alt) + [p])
  }

  /** The new rules of `a`: every alternative that does not start with `a`,
      alone and followed by `p`. */
  function Others(alts: seq<Alt>, a: string, p: string): seq<Alt> {
    if alts == [] then [] else Others(alts[..|alts| - 1], a, p) + OtherPart(alts[|alts| - 1], a, p)
  }

  function OtherPart(alt: Alt, a: string, p: string): seq<Alt> {
    if StartsWith(alt, a) then [] else [alt, Extend(alt, p)]
  }

  /** The rules of the primed non-terminal: for every alternative that starts
      with `a`, what follows all its leading copies of `a`, alone and followed
      by `p`; an alternative made only of `a` contributes nothing. */
  function Tails(alts: seq<Alt>, a: string, p: string): seq<Alt> {
    if alts == [] then [] else Tails(alts[..|alts| - 1], a, p) + TailPart(alts[|alts| - 1], a, p)
  }

  function TailPart(alt: Alt, a: string, p: string): seq<Alt> {
    var k := Lead(Symbols(alt), a);
    if StartsWith(alt, a) && k < |Symbols(alt)| then [Slice(alt, k), Extend(Slice(alt, k), p)] else []
  }

  // The body of an earlier key followed by the rest of an alternative.

  /** The concatenation of the strings of `tail`. */
  function Flatten(tail: seq<string>): string {
    if tail == [] then "" else Flatten(tail[..|tail| - 1]) + tail[|tail| - 1]
  }

  /** The one-character symbols of a string. */
  function Chars(s: string): seq<string> {
    Symbols(Str(s))
  }

  lemma CharsAppend(u: string, v: string)
    ensures Chars(u + v) == Chars(u) + Chars(v)
  {
    assert forall m :: 0 <= m < |u + v| ==> Chars(u + v)[m] == (Chars(u) + Chars(v))[m];
  }

  /** The splice as main.py:244-255 writes it: the body is copied and each
      remaining symbol is added with `+=`, which concatenates strings onto a
      string body and extends a list body by the characters of the symbol. */
  function SpliceAsWritten(body: Alt, tail: seq<string>): Alt {
    match body
    case Str(b) => Str(b + Flatten(tail))
    case Lst(items) => Lst(items + Chars(Flatten(tail)))
  }

  /** The source's loop of `+=` steps computes SpliceAsWritten. */
  method AppendTail(body: Alt, tail: seq<string>) returns (r: Alt)
    ensures r == SpliceAsWritten(body, tail)
  {
    r := body;
    var k := 0;
    while k < |tail|
      invariant 0 <= k <= |tail|
      invariant r == SpliceAsWritten(body, tail[..k])
    {
      assert tail[..k + 1][..k] == tail[..k];
      match r {
        case Str(s) =>
          r := Str(s + tail[k]);
        case Lst(items) =>
          CharsAppend(Flatten(tail[..k]), tail[k]);
          r := Lst(items + Chars(tail[k]));
      }
      k := k + 1;
    }
    assert tail[..k] == tail;
  }

  /** The symbols of the as-written splice: the body's symbols followed by the
      characters of the remaining symbols, not the symbols themselves. */
  lemma SpliceAsWrittenSymbols(body: Alt, tail: seq<string>)
    ensures Symbols(SpliceAsWritten(body, tail)) == Symbols(body) + Chars(Flatten(tail))
  {
    if body.Str? {
      CharsAppend(body.s, Flatten(tail));
    }
  }

  /** A primed symbol after the stripped prefix is split into two symbols,
      where the intended splice keeps it whole. */
  lemma SplicePrimeSplit()
    ensures SpliceAsWritten(Str("e"), ["d", "A'", "f"]) == Str("edA'f")
    ensures Symbols(SpliceAsWritten(Str("e"), ["d", "A'", "f"])) == ["e", "d", "A", "'", "f"]
    ensures Symbols(SpliceAsWritten(Str("e"), ["d", "A'", "f"])) != Symbols(Str("e")) + ["d", "A'", "f"]
    ensures Symbols(Splice(Str("e"), ["d", "A'", "f"])) == ["e", "d", "A'", "f"]
  {
    SampleFlatten();
    var w := Symbols(Str("edA'f"));
    assert w == ["e", "d", "A", "'", "f"];
    assert w[2] != "A'";
    assert (Symbols(Str("e")) + ["d", "A'", "f"])[2] == "A'";
    SampleNotSingleChars();
  }

  lemma SampleFlatten()
    ensures Flatten(["d", "A'", "f"]) == "dA'f"
  {
    assert ["d", "A'", "f"][..2] == ["d", "A'"];
    assert ["d", "A'"][..1] == ["d"];
    assert ["d"][..0] == [];
  }

  lemma SampleNotSingleChars()
    ensures Splice(Str("e"), ["d", "A'", "f"]) == Lst(["e", "d", "A'", "f"])
  {
    assert "A'" in ["d", "A'", "f"];
    assert Symbols(Str("e")) == ["e"];
  }

  /** The splice the source intends: when every remaining symbol is one
      character it is the as-written result; otherwise the symbols are kept
      whole in a list. */
  function Splice(body: Alt, tail: seq<string>): Alt {
    if forall x :: x in tail ==> |x| == 1 then SpliceAsWritten(body, tail)
    else Lst(Symbols(body) + tail)
  }

  lemma {:induction false} SingleCharsFlatten(tail: seq<string>)
    requires forall x :: x in tail ==> |x| == 1
    ensures Chars(Flatten(tail)) == tail
  {
    if tail != [] {
      var init, last := tail[..|tail| - 1], tail[|tail| - 1];
      assert forall x :: x in init ==> x in tail;
      SingleCharsFlatten(init);
      CharsAppend(Flatten(init), last);
      assert last in tail;
      assert Chars(last) == [last] by {
        assert last == [last[0]];
      }
      assert tail == init + [last];
    }
  }

  /** The intended splice is the body's symbols followed by the remaining
      symbols, each kept whole. */
  lemma SpliceSymbols(body: Alt, tail: seq<string>)
    ensures Symbols(Splice(body, tail)) == Symbols(body) + tail
  {
    if forall x :: x in tail ==> |x| == 1 {
      SpliceAsWrittenSymbols(body, tail);
      SingleCharsFlatten(tail);
    }
  }

  /** The two splices agree exactly when the symbols of the as-written one are
      the intended ones. */
  lemma SpliceAgrees(body: Alt, tail: seq<string>)
    requires forall x :: x in tail ==> |x| == 1
    ensures Splice(body, tail) == SpliceAsWritten(body, tail)
    ensures Symbols(SpliceAsWritten(body, tail)) == Symbols(body) + tail
  {
    SpliceSymbols(body, tail);
  }

  /** Which splice the substitution uses: the one main.py runs, or the
      intended one that keeps multi-character symbols whole. */
  datatype Splicing = AsWritten | Intended

  function Join(mode: Splicing, body: Alt, tail: seq<string>): Alt {
    match mode
    case AsWritten => SpliceAsWritten(body, tail)
    case Intended => Splice(body, tail)
  }

  /** Either splice starts with the body's symbols, so a non-empty body keeps
      its first symbol. */
  lemma JoinSymbols(mode: Splicing, body: Alt, tail: seq<string>)
    ensures |Symbols(Join(mode, body, tail))| >= |Symbols(body)|
    ensures Symbols(Join(mode, body, tail))[..|Symbols(body)|] == Symbols(body)
  {
    SpliceAsWrittenSymbols(body, tail);
    SpliceSymbols(body, tail);
  }

  /** Every body of the earlier key followed by `tail`. */
  function Spliced(mode: Splicing, bodies: seq<Alt>, tail: seq<string>): seq<Alt> {
    if bodies == [] then []
    else Spliced(mode, bodies[..|bodies| - 1], tail) + [Join(mode, bodies[|bodies| - 1], tail)]
  }

  /** The symbols after all leading copies of `b`. */
  function Rest(alt: Alt, b: string): seq<string> {
    Symbols(alt)[Lead(Symbols(alt), b)..]
  }

  /** The alternatives of a key after the rules of `b` are substituted into
      every alternative that starts with `b`. */
  function Substituted(mode: Splicing, alts: seq<Alt>, b: string, bodies: seq<Alt>): seq<Alt> {
    if alts == [] then []
    else
      var last := alts[|alts| - 1];
      Substituted(mode, alts[..|alts| - 1], b, bodies) + (if StartsWith(last, b) then Spliced(mode, bodies, Rest(last, b)) else [last])
  }

  /** The primed non-terminals of the first `n` keys. */
  ghost function Primes(order: seq<string>, n: nat): set<string>
    requires n <= |order|
  {
    set k | 0 <= k < n :: Prime(order[k])
  }

  /** The direct step on key `a` (main.py:204-232): None where the source
      indexes an empty alternative; otherwise the grammar unchanged when no
      alternative of `a` starts with `a`, or with the rules of `a` and of its
      primed non-terminal replaced. */
  function DirectAt(h: Grammar, a: string): Option<Grammar> {
    if a !in h.rules then None
    else
    var alts := h.rules[a];
    if HasEmpty(alts) then None
    else if exists alt :: alt in alts && StartsWith(alt, a) then
      var p := Prime(a);
      Some(h.(nonTerminals := h.nonTerminals + {p}, rules := h.rules[a := Others(alts, a, p)][p := Tails(alts, a, p)]))
    else Some(h)
  }

  /** The substitution of the rules of `b` into the alternatives of `a`
      (main.py:240-259): None where the source indexes an empty alternative. */
  function SubstAt(mode: Splicing, h: Grammar, a: string, b: string): Option<Grammar> {
    if a !in h.rules || b !in h.rules || HasEmpty(h.rules[a]) then None
    else Some(h.(rules := h.rules[a := Substituted(mode, h.rules[a], b, h.rules[b])]))
  }

  /** The substitutions of keys 0 .. j-1 into key i, in that order. */
  function SubstUpTo(mode: Splicing, h: Grammar, order: seq<string>, i: nat, j: nat): Option<Grammar>
    requires j <= i < |order|
    decreases j
  {
    if j == 0 then Some(h)
    else
      var prev := SubstUpTo(mode, h, order, i, j - 1);
      if prev.None? then None else SubstAt(mode, prev.value, order[i], order[j - 1])
  }

  /** The grammar after key i is processed. */
  function Stage(mode: Splicing, g: Grammar, order: seq<string>, i: nat): Option<Grammar>
    requires i < |order|
    decreases i
  {
    if i == 0 then DirectAt(g, order[0]) else Proceed(mode, Stage(mode, g, order, i - 1), order, i)
  }

  /** Key i processed after the earlier keys left `prev`. */
  function Proceed(mode: Splicing, prev: Option<Grammar>, order: seq<string>, i: nat): Option<Grammar>
    requires i < |order|
  {
    if prev.None? then None
    else
      var substituted := SubstUpTo(mode, prev.value, order, i, i);
      if substituted.None? then None else DirectAt(substituted.value, order[i])
  }

  /** The whole loop over the key order; None where the source raises an
      IndexError (no keys, or an empty alternative). */
  function Eliminated(mode: Splicing, g: Grammar, order: seq<string>): Option<Grammar> {
    if order == [] then None else Stage(mode, g, order, |order| - 1)
  }

  /** The `while k < len(rule)` loop that skips the leading copies of `a`. */
  method LeadingCopies(syms: seq<string>, a: string) returns (k: nat)
    ensures k == Lead(syms, a)
  {
    k := 0;
    while k < |syms|
      invariant k <= |syms|
      invariant forall m :: 0 <= m < k ==> syms[m] == a
    {
      if syms[k] == a {
        k := k + 1;
      } else {
        break;
      }
    }
  }

  /** The body of the rebuild loop for one non-empty alternative: what it adds
      to the primed rules and to the rules of `a`. */
  method RebuildOne(alt: Alt, a: string, p: string) returns (tailPart: seq<Alt>, otherPart: seq<Alt>)
    requires Symbols(alt) != []
    ensures tailPart == TailPart(alt, a, p) && otherPart == OtherPart(alt, a, p)
  {
    var syms := Symbols(alt);
    tailPart, otherPart := [], [];
    if syms[0] == a {
      var k := LeadingCopies(syms, a);
      if k < |syms| {
        var tail := Slice(alt, k);
        tailPart := tailPart + [tail];
        tailPart := tailPart + [Extend(tail, p)];
      }
    } else {
      otherPart := otherPart + [alt];
      otherPart := otherPart + [Extend(alt, p)];
    }
  }

  /** The rebuild loop of the direct step: both new rule lists, or failure on
      an empty alternative. */
  method Rebuild(alts: seq<Alt>, a: string, p: string) returns (prime: seq<Alt>, others: seq<Alt>, ok: bool)
    ensures ok <==> !HasEmpty(alts)
    ensures ok ==> prime == Tails(alts, a, p) && others == Others(alts, a, p)
  {
    prime, others := [], [];
    var m := 0;
    while m < |alts|
      invariant 0 <= m <= |alts|
      invariant !HasEmpty(alts[..m])
      invariant prime == Tails(alts[..m], a, p) && others == Others(alts[..m], a, p)
    {
      var alt := alts[m];
      if Symbols(alt) == [] {
        EmptyWitness(alts, m);
        return prime, others, false;
      }
      TakeSnoc(alts, m);
      NoEmptySnoc(alts[..m], alt);
      prime, others := RebuildStep(alts[..m], alt, a, p, prime, others);
      m := m + 1;
    }
    assert alts[..m] == alts;
    ok := true;
  }

  /** One round of the rebuild loop, on a non-empty alternative. */
  method RebuildStep(ghost done: seq<Alt>, alt: Alt, a: string, p: string, prime: seq<Alt>, others: seq<Alt>)
    returns (prime': seq<Alt>, others': seq<Alt>)
    requires Symbols(alt) != []
    requires prime == Tails(done, a, p) && others == Others(done, a, p)
    ensures prime' == Tails(done + [alt], a, p) && others' == Others(done + [alt], a, p)
  {
    TailsSnoc(done, alt, a, p);
    OthersSnoc(done, alt, a, p);
    var tailPart, otherPart := RebuildOne(alt, a, p);
    prime' := prime + tailPart;
    others' := others + otherPart;
  }

  lemma TakeSnoc(alts: seq<Alt>, m: nat)
    requires m < |alts|
    ensures alts[..m + 1] == alts[..m] + [alts[m]]
  {
  }

  lemma EmptyWitness(alts: seq<Alt>, m: nat)
    requires m < |alts| && Symbols(alts[m]) == []
    ensures HasEmpty(alts)
  {
    assert alts[m] in alts;
  }

  lemma NoEmptySnoc(alts: seq<Alt>, alt: Alt)
    requires !HasEmpty(alts) && Symbols(alt) != []
    ensures !HasEmpty(alts + [alt])
  {
    forall x | x in alts + [alt]
      ensures Symbols(x) != []
    {
      assert x in alts || x == alt;
    }
  }

  lemma TailsSnoc(alts: seq<Alt>, alt: Alt, a: string, p: string)
    ensures Tails(alts + [alt], a, p) == Tails(alts, a, p) + TailPart(alt, a, p)
  {
    assert (alts + [alt])[..|alts|] == alts;
  }

  lemma OthersSnoc(alts: seq<Alt>, alt: Alt, a: string, p: string)
    ensures Others(alts + [alt], a, p) == Others(alts, a, p) + OtherPart(alt, a, p)
  {
    assert (alts + [alt])[..|alts|] == alts;
  }

  /** The direct step as the source runs it: a scan for the first alternative
      starting with `a`, then the rebuild of both rule lists. */
  method DirectStep(h: Grammar, a: string) returns (r: Option<Grammar>)
    ensures r == DirectAt(h, a)
  {
    if a !in h.rules {
      return None;
    }
    var alts := h.rules[a];
    var o := 0;
    while o < |alts|
      invariant 0 <= o <= |alts|
      invariant !HasEmpty(alts[..o])
      invariant forall alt :: alt in alts[..o] ==> !StartsWith(alt, a)
    {
      var syms := Symbols(alts[o]);
      if syms == [] {
        assert alts[o] in alts;
        return None;
      }
      if syms[0] == a {
        var p := Prime(a);
        var prime, others, ok := Rebuild(alts, a, p);
        if !ok {
          return None;
        }
        assert alts[o] in alts && StartsWith(alts[o], a);
        var rules := h.rules[a := others];
        return Some(h.(nonTerminals := h.nonTerminals + {p}, rules := rules[p := prime]));
      }
      assert alts[..o + 1] == alts[..o] + [alts[o]];
      o := o + 1;
    }
    assert alts[..o] == alts;
    r := Some(h);
  }

  lemma SubstitutedSnoc(mode: Splicing, alts: seq<Alt>, alt: Alt, b: string, bodies: seq<Alt>)
    ensures Substituted(mode, alts + [alt], b, bodies) ==
            Substituted(mode, alts, b, bodies) + (if StartsWith(alt, b) then Spliced(mode, bodies, Rest(alt, b)) else [alt])
  {
    assert (alts + [alt])[..|alts|] == alts;
  }

  /** The loop over the bodies of `b`: each body followed by `tail`. */
  method SpliceAll(bodies: seq<Alt>, tail: seq<string>) returns (spliced: seq<Alt>)
    ensures spliced == Spliced(AsWritten, bodies, tail)
  {
    spliced := [];
    var n := 0;
    while n < |bodies|
      invariant 0 <= n <= |bodies|
      invariant spliced == Spliced(AsWritten, bodies[..n], tail)
    {
      assert bodies[..n + 1][..n] == bodies[..n];
      var joined := AppendTail(bodies[n], tail);
      spliced := spliced + [joined];
      n := n + 1;
    }
    assert bodies[..n] == bodies;
  }

  /** One alternative of the substitution: the bodies of `b` spliced in when
      it starts with `b`, the alternative itself otherwise. */
  method SubstituteInto(alt: Alt, b: string, bodies: seq<Alt>) returns (piece: seq<Alt>)
    requires Symbols(alt) != []
    ensures piece == if StartsWith(alt, b) then Spliced(AsWritten, bodies, Rest(alt, b)) else [alt]
  {
    var syms := Symbols(alt);
    if syms[0] == b {
      var k := LeadingCopies(syms, b);
      piece := SpliceAll(bodies, syms[k..]);
    } else {
      piece := [alt];
    }
  }

  /** The substitution as the source runs it, alternative by alternative and
      body by body, each body extended with `+=` as main.py:254-255 does. */
  method SubstStep(h: Grammar, a: string, b: string) returns (r: Option<Grammar>)
    ensures r == SubstAt(AsWritten, h, a, b)
  {
    if a !in h.rules || b !in h.rules {
      return None;
    }
    var alts := h.rules[a];
    var bodies := h.rules[b];
    var result: seq<Alt> := [];
    var o := 0;
    while o < |alts|
      invariant 0 <= o <= |alts|
      invariant !HasEmpty(alts[..o])
      invariant result == Substituted(AsWritten, alts[..o], b, bodies)
    {
      var alt := alts[o];
      var syms := Symbols(alt);
      if syms == [] {
        assert alts[o] in alts;
        return None;
      }
      assert alts[..o + 1] == alts[..o] + [alt];
      SubstitutedSnoc(AsWritten, alts[..o], alt, b, bodies);
      var piece := SubstituteInto(alt, b, bodies);
      result := result + piece;
      o := o + 1;
    }
    assert alts[..o] == alts;
    r := Some(h.(rules := h.rules[a := result]));
  }

  /** The inner `while True` loop: keys 0 .. i-1 substituted into key i. */
  method SubstituteEarlier(h: Grammar, order: seq<string>, i: nat) returns (r: Option<Grammar>)
    requires 0 < i < |order|
    ensures r == SubstUpTo(AsWritten, h, order, i, i)
  {
    var cur := h;
    var j := 0;
    while true
      invariant 0 <= j < i
      invariant SubstUpTo(AsWritten, h, order, i, j) == Some(cur)
      decreases i - j
    {
      var t := SubstStep(cur, order[i], order[j]);
      if t.None? {
        SubstUpToNoneStays(AsWritten, h, order, i, j + 1, i);
        return None;
      }
      cur := t.value;
      if j == i - 1 {
        return Some(cur);
      }
      j := j + 1;
    }
  }

  /** One pass of the outer loop for key i > 0. */
  method ProcessKey(h: Grammar, order: seq<string>, i: nat) returns (r: Option<Grammar>)
    requires 0 < i < |order|
    ensures r == Proceed(AsWritten, Some(h), order, i)
  {
    var t := SubstituteEarlier(h, order, i);
    if t.None? {
      return None;
    }
    r := DirectStep(t.value, order[i]);
  }

  /** One round of the main loop: key i + 1 processed after the stage of
      key i left `h`. */
  method NextStage(ghost g: Grammar, order: seq<string>, i: nat, h: Grammar) returns (d: Option<Grammar>)
    requires i + 1 < |order|
    requires Stage(AsWritten, g, order, i) == Some(h)
    ensures d == Stage(AsWritten, g, order, i + 1)
  {
    d := ProcessKey(h, order, i + 1);
  }

  lemma FirstStage(mode: Splicing, g: Grammar, order: seq<string>, d: Option<Grammar>)
    requires |order| > 0 && d == DirectAt(g, order[0])
    ensures Stage(mode, g, order, 0) == d
  {
  }

  /** The outer `while True` loop of remove_left_recursion: the direct step on
      the first key, then for each further key the substitution of the earlier
      keys followed by its direct step. */
  method EliminateLeftRecursion(g: Grammar, order: seq<string>) returns (r: Option<Grammar>)
    ensures r == Eliminated(AsWritten, g, order)
  {
    if |order| == 0 {
      return None;
    }
    var first := DirectStep(g, order[0]);
    FirstStage(AsWritten, g, order, first);
    if first.None? {
      StageNoneStays(AsWritten, g, order, 0, |order| - 1);
      return None;
    }
    var h := first.value;
    var i := 0;
    while i < |order| - 1
      invariant 0 <= i < |order|
      invariant Stage(AsWritten, g, order, i) == Some(h)
    {
      var d := NextStage(g, order, i, h);
      if d.None? {
        StageNoneStays(AsWritten, g, order, i + 1, |order| - 1);
        return None;
      }
      h := d.value;
      i := i + 1;
    }
    return Some(h);
  }

  lemma {:induction false} SubstUpToNoneStays(mode: Splicing, h: Grammar, order: seq<string>, i: nat, j: nat, n: nat)
    requires j <= n <= i < |order|
    requires SubstUpTo(mode, h, order, i, j).None?
    ensures SubstUpTo(mode, h, order, i, n).None?
    decreases n
  {
    if n > j {
      SubstUpToNoneStays(mode, h, order, i, j, n - 1);
    }
  }

  lemma {:induction false} StageNoneStays(mode: Splicing, g: Grammar, order: seq<string>, i: nat, n: nat)
    requires i <= n < |order|
    requires Stage(mode, g, order, i).None?
    ensures Stage(mode, g, order, n).None?
    ensures n == |order| - 1 ==> Eliminated(mode, g, order).None?
    decreases n
  {
    if n > i {
      StageNoneStays(mode, g, order, i, n - 1);
      assert Stage(mode, g, order, n) == Proceed(mode, Stage(mode, g, order, n - 1), order, n);
    }
  }

  // Membership of the rebuilt rule lists.

  lemma {:induction false} OthersMembers(alts: seq<Alt>, a: string, p: string)
    ensures forall x :: x in Others(alts, a, p) <==>
              exists alt :: alt in alts && !StartsWith(alt, a) && (x == alt || x == Extend(alt, p))
  {
    if alts != [] {
      var init, last := alts[..|alts| - 1], alts[|alts| - 1];
      assert alts == init + [last];
      OthersMembers(init, a, p);
    }
  }

  /** The primed rules hold, for each alternative starting with `a` and not
      made only of `a`, what follows all its leading copies of `a`, alone and
      followed by `p`. */
  lemma {:induction false} TailsMembers(alts: seq<Alt>, a: string, p: string)
    ensures forall x :: x in Tails(alts, a, p) <==> exists alt :: alt in alts && TailOf(x, alt, a, p)
  {
    if alts != [] {
      var init, last := alts[..|alts| - 1], alts[|alts| - 1];
      assert alts == init + [last];
      TailsMembers(init, a, p);
      assert Tails(alts, a, p) == Tails(init, a, p) + TailPart(last, a, p);
      forall x | x in Tails(alts, a, p)
        ensures exists alt :: alt in alts && TailOf(x, alt, a, p)
      {
        if x in Tails(init, a, p) {
          var alt :| alt in init && TailOf(x, alt, a, p);
          assert alt in alts;
        } else {
          assert x in TailPart(last, a, p);
          assert TailOf(x, last, a, p);
        }
      }
      forall x, alt | alt in alts && TailOf(x, alt, a, p)
        ensures x in Tails(alts, a, p)
      {
        if alt == last {
          assert x in TailPart(last, a, p);
        } else {
          assert alt in init;
        }
      }
    }
  }

  /** `x` is one of the two primed rules made from the alternative `alt`:
      what follows its leading copies of `a`, alone or followed by `p`. */
  ghost predicate TailOf(x: Alt, alt: Alt, a: string, p: string) {
    StartsWith(alt, a) && Lead(Symbols(alt), a) < |Symbols(alt)| &&
    (x == Slice(alt, Lead(Symbols(alt), a)) || x == Extend(Slice(alt, Lead(Symbols(alt), a)), p))
  }

  lemma {:induction false} SplicedMembers(mode: Splicing, bodies: seq<Alt>, tail: seq<string>)
    ensures forall x :: x in Spliced(mode, bodies, tail) <==> exists body :: body in bodies && x == Join(mode, body, tail)
  {
    if bodies != [] {
      var init, last := bodies[..|bodies| - 1], bodies[|bodies| - 1];
      assert bodies == init + [last];
      SplicedMembers(mode, init, tail);
    }
  }

  lemma {:induction false} SubstitutedMembers(mode: Splicing, alts: seq<Alt>, b: string, bodies: seq<Alt>)
    ensures forall x :: x in Substituted(mode, alts, b, bodies) <==>
              || (x in alts && !StartsWith(x, b))
              || (exists alt, body :: alt in alts && StartsWith(alt, b) && body in bodies && x == Join(mode, body, Rest(alt, b)))
  {
    if alts != [] {
      var init, last := alts[..|alts| - 1], alts[|alts| - 1];
      assert alts == init + [last];
      SubstitutedMembers(mode, init, b, bodies);
      SplicedMembers(mode, bodies, Rest(last, b));
    }
  }

  /** After the direct step no alternative of `a` and no alternative of its
      primed non-terminal starts with `a`, and none is empty: every leading copy
      of `a` is stripped. */
  lemma DirectAtStripsAll(h: Grammar, a: string)
    requires DirectAt(h, a).Some? && Prime(a) != a
    ensures var r := DirectAt(h, a).value;
      forall x :: x in r.rules[a] ==> Symbols(x) != [] && !StartsWith(x, a)
    ensures var r := DirectAt(h, a).value;
      (exists alt :: alt in h.rules[a] && StartsWith(alt, a)) ==>
        Prime(a) in r.rules && forall x :: x in r.rules[Prime(a)] ==> Symbols(x) != [] && !StartsWith(x, a)
  {
    var r := DirectAt(h, a).value;
    var p := Prime(a);
    var alts := h.rules[a];
    if exists alt :: alt in alts && StartsWith(alt, a) {
      OthersMembers(alts, a, p);
      TailsMembers(alts, a, p);
      forall x | x in r.rules[a] || x in r.rules[p]
        ensures Symbols(x) != [] && !StartsWith(x, a)
      {
        if x in r.rules[a] {
          var alt :| alt in alts && !StartsWith(alt, a) && (x == alt || x == Extend(alt, p));
          assert alt in alts && Symbols(alt) != [];
        } else {
          var alt :| alt in alts && StartsWith(alt, a) && Lead(Symbols(alt), a) < |Symbols(alt)| &&
            (x == Slice(alt, Lead(Symbols(alt), a)) || x == Extend(Slice(alt, Lead(Symbols(alt), a)), p));
          SliceSymbols(alt, Lead(Symbols(alt), a));
        }
      }
    } else {
      forall x | x in r.rules[a]
        ensures Symbols(x) != []
      {
        assert x in alts;
      }
    }
  }

  // What each step leaves alone.

  lemma DirectAtFrame(h: Grammar, a: string)
    requires DirectAt(h, a).Some?
    ensures var r := DirectAt(h, a).value;
      && a in h.rules && !HasEmpty(h.rules[a])
      && r.axiom == h.axiom && r.terminals == h.terminals
      && h.nonTerminals <= r.nonTerminals <= h.nonTerminals + {Prime(a)}
      && h.rules.Keys <= r.rules.Keys <= h.rules.Keys + {Prime(a)}
      && (forall k :: k in h.rules && k != a && k != Prime(a) ==> r.rules[k] == h.rules[k])
  {
  }

  lemma SubstAtFrame(mode: Splicing, h: Grammar, a: string, b: string)
    requires SubstAt(mode, h, a, b).Some?
    ensures var r := SubstAt(mode, h, a, b).value;
      && a in h.rules && b in h.rules && !HasEmpty(h.rules[a])
      && r == h.(rules := h.rules[a := Substituted(mode, h.rules[a], b, h.rules[b])])
      && r.rules.Keys == h.rules.Keys
      && (forall k :: k in h.rules && k != a ==> r.rules[k] == h.rules[k])
  {
  }

  lemma {:induction false} SubstUpToFrame(mode: Splicing, h: Grammar, order: seq<string>, i: nat, j: nat)
    requires j <= i < |order|
    requires SubstUpTo(mode, h, order, i, j).Some?
    ensures var r := SubstUpTo(mode, h, order, i, j).value;
      && r.axiom == h.axiom && r.terminals == h.terminals && r.nonTerminals == h.nonTerminals
      && r.rules.Keys == h.rules.Keys
      && (forall k :: k in h.rules && k != order[i] ==> r.rules[k] == h.rules[k])
    decreases j
  {
    if j > 0 {
      SubstUpToFrame(mode, h, order, i, j - 1);
      SubstAtFrame(mode, SubstUpTo(mode, h, order, i, j - 1).value, order[i], order[j - 1]);
    }
  }

  /** Every stage keeps the axiom and the terminals, keeps every non-terminal
      and rule key, and adds only primed non-terminals of processed keys. */
  lemma {:induction false} StageShape(mode: Splicing, g: Grammar, order: seq<string>, i: nat)
    requires i < |order| && Stage(mode, g, order, i).Some?
    ensures var r := Stage(mode, g, order, i).value;
      && r.axiom == g.axiom && r.terminals == g.terminals
      && g.nonTerminals <= r.nonTerminals <= g.nonTerminals + Primes(order, i + 1)
      && g.rules.Keys <= r.rules.Keys <= g.rules.Keys + Primes(order, i + 1)
    decreases i
  {
    assert Prime(order[i]) in Primes(order, i + 1);
    if i == 0 {
      DirectAtFrame(g, order[0]);
    } else {
      var prev := Stage(mode, g, order, i - 1).value;
      StageShape(mode, g, order, i - 1);
      assert Primes(order, i) <= Primes(order, i + 1);
      SubstUpToFrame(mode, prev, order, i, i);
      DirectAtFrame(SubstUpTo(mode, prev, order, i, i).value, order[i]);
    }
  }

  lemma PrimeInjective(a: string, b: string)
    requires Prime(a) == Prime(b)
    ensures a == b
  {
    assert a == Prime(a)[..|a|];
    assert b == Prime(b)[..|b|];
  }

  /** A primed non-terminal, once its key is processed, keeps its rules to the
      end: the later steps rewrite only later keys and their own primes. */
  lemma {:induction false} PrimesNotRewritten(mode: Splicing, g: Grammar, order: seq<string>, k: nat, i: nat)
    requires k <= i < |order| && Distinct(order) && PrimesFresh(order)
    requires Stage(mode, g, order, i).Some?
    ensures Stage(mode, g, order, k).Some?
    ensures Prime(order[k]) in Stage(mode, g, order, k).value.rules ==>
              Prime(order[k]) in Stage(mode, g, order, i).value.rules &&
              Stage(mode, g, order, i).value.rules[Prime(order[k])] == Stage(mode, g, order, k).value.rules[Prime(order[k])]
    decreases i
  {
    if i > k {
      var j := i - 1;
      StageUnfold(mode, g, order, j, i);
      var prev := Stage(mode, g, order, j);
      PrimesNotRewritten(mode, g, order, k, j);
      var s := SubstUpTo(mode, prev.value, order, i, i).value;
      SubstUpToFrame(mode, prev.value, order, i, i);
      DirectAtFrame(s, order[i]);
      if Prime(order[k]) == Prime(order[i]) {
        PrimeInjective(order[k], order[i]);
      }
    }
  }

  // No processed key's alternative starts with the same or an earlier key.

  ghost predicate Distinct(order: seq<string>) {
    forall k, m :: 0 <= k < m < |order| ==> order[k] != order[m]
  }

  /** No primed non-terminal of a key is itself one of the keys. */
  ghost predicate PrimesFresh(order: seq<string>) {
    forall k, m :: 0 <= k < |order| && 0 <= m < |order| ==> Prime(order[k]) != order[m]
  }

  ghost predicate Avoids(alts: seq<Alt>, order: seq<string>, n: nat)
    requires n <= |order|
  {
    forall alt, j :: alt in alts && 0 <= j < n ==> !StartsWith(alt, order[j])
  }

  /** The first `n` keys have rules, none of them empty, and no alternative of
      key k starts with any of keys 0 .. k. */
  ghost predicate Ordered(h: Grammar, order: seq<string>, n: nat)
    requires n <= |order|
  {
    forall k :: 0 <= k < n ==>
      order[k] in h.rules && !HasEmpty(h.rules[order[k]]) && Avoids(h.rules[order[k]], order, k + 1)
  }

  lemma DirectKeepsOrdered(h: Grammar, order: seq<string>, i: nat)
    requires i < |order| && Distinct(order) && PrimesFresh(order)
    requires Ordered(h, order, i)
    requires order[i] in h.rules && Avoids(h.rules[order[i]], order, i)
    requires DirectAt(h, order[i]).Some?
    ensures Ordered(DirectAt(h, order[i]).value, order, i + 1)
  {
    DirectAtFrame(h, order[i]);
    DirectAtAvoids(h, order, i);
  }

  /** After the rewrite, key i's own alternatives are non-empty and start with
      none of keys 0 .. i. */
  lemma DirectAtAvoids(h: Grammar, order: seq<string>, i: nat)
    requires i < |order| && PrimesFresh(order)
    requires order[i] in h.rules && Avoids(h.rules[order[i]], order, i)
    requires DirectAt(h, order[i]).Some?
    ensures var r := DirectAt(h, order[i]).value;
      order[i] in r.rules && !HasEmpty(r.rules[order[i]]) && Avoids(r.rules[order[i]], order, i + 1)
  {
    var a := order[i];
    var p := Prime(a);
    var r := DirectAt(h, a).value;
    DirectAtFrame(h, a);
    var alts := h.rules[a];
    if exists alt :: alt in alts && StartsWith(alt, a) {
      assert p != a;
      assert r.rules[a] == Others(alts, a, p);
      OthersAvoid(alts, order, i, p);
    } else {
      assert r.rules[a] == alts;
    }
  }

  /** The new rules of key i are non-empty and start with none of keys
      0 .. i when its old rules start with none of keys 0 .. i-1. */
  lemma OthersAvoid(alts: seq<Alt>, order: seq<string>, i: nat, p: string)
    requires i < |order| && !HasEmpty(alts) && Avoids(alts, order, i)
    ensures !HasEmpty(Others(alts, order[i], p)) && Avoids(Others(alts, order[i], p), order, i + 1)
  {
    var a := order[i];
    OthersMembers(alts, a, p);
    forall x | x in Others(alts, a, p)
      ensures Symbols(x) != [] && forall j :: 0 <= j < i + 1 ==> !StartsWith(x, order[j])
    {
      var alt :| alt in alts && !StartsWith(alt, a) && (x == alt || x == Extend(alt, p));
      assert Symbols(alt) != [];
      assert forall j :: 0 <= j < i + 1 ==> !StartsWith(alt, order[j]);
      if x != alt {
        ExtendKeepsFirst(alt, p);
      }
    }
  }

  /** Appending `p` keeps an alternative's first symbol. */
  lemma ExtendKeepsFirst(alt: Alt, p: string)
    requires Symbols(alt) != []
    ensures Symbols(Extend(alt, p)) != []
    ensures forall b :: StartsWith(Extend(alt, p), b) <==> StartsWith(alt, b)
  {
  }

  lemma SubstKeepsOrdered(mode: Splicing, h: Grammar, order: seq<string>, i: nat, j: nat)
    requires j < i < |order| && Distinct(order)
    requires Ordered(h, order, i)
    requires order[i] in h.rules && Avoids(h.rules[order[i]], order, j)
    requires SubstAt(mode, h, order[i], order[j]).Some?
    ensures var r := SubstAt(mode, h, order[i], order[j]).value;
      Ordered(r, order, i) && order[i] in r.rules && Avoids(r.rules[order[i]], order, j + 1)
  {
    var a, b := order[i], order[j];
    var r := SubstAt(mode, h, a, b).value;
    SubstAtFrame(mode, h, a, b);
    SubstitutedMembers(mode, h.rules[a], b, h.rules[b]);
    forall x, m | x in r.rules[a] && 0 <= m < j + 1
      ensures !StartsWith(x, order[m])
    {
      if !(x in h.rules[a] && !StartsWith(x, b)) {
        var alt, body :| alt in h.rules[a] && StartsWith(alt, b) && body in h.rules[b] && x == Join(mode, body, Rest(alt, b));
        assert Symbols(body) != [] && !StartsWith(body, order[m]);
        JoinSymbols(mode, body, Rest(alt, b));
      }
    }
  }

  lemma {:induction false} SubstUpToKeepsOrdered(mode: Splicing, h: Grammar, order: seq<string>, i: nat, j: nat)
    requires j <= i < |order| && Distinct(order)
    requires Ordered(h, order, i) && order[i] in h.rules
    requires SubstUpTo(mode, h, order, i, j).Some?
    ensures var r := SubstUpTo(mode, h, order, i, j).value;
      Ordered(r, order, i) && order[i] in r.rules && Avoids(r.rules[order[i]], order, j)
    decreases j
  {
    if j > 0 {
      SubstUpToKeepsOrdered(mode, h, order, i, j - 1);
      SubstKeepsOrdered(mode, SubstUpTo(mode, h, order, i, j - 1).value, order, i, j - 1);
    }
  }

  lemma {:induction false} StageOrdered(mode: Splicing, g: Grammar, order: seq<string>, i: nat)
    requires i < |order| && Distinct(order) && PrimesFresh(order)
    requires Stage(mode, g, order, i).Some?
    ensures Ordered(Stage(mode, g, order, i).value, order, i + 1)
    decreases i
  {
    if i == 0 {
      DirectAtFrame(g, order[0]);
      DirectKeepsOrdered(g, order, 0);
    } else {
      var prev := Stage(mode, g, order, i - 1).value;
      StageOrdered(mode, g, order, i - 1);
      StageShape(mode, g, order, i - 1);
      var s := SubstUpTo(mode, prev, order, i, i).value;
      DirectAtFrame(s, order[i]);
      SubstUpToFrame(mode, prev, order, i, i);
      SubstUpToKeepsOrdered(mode, prev, order, i, i);
      DirectKeepsOrdered(s, order, i);
    }
  }

  /** After the loop, for every key in the order, each alternative is
      non-empty and starts with no key at or before it in the order. */
  lemma NoLeftRecursion(mode: Splicing, g: Grammar, order: seq<string>)
    requires Distinct(order) && PrimesFresh(order)
    requires Eliminated(mode, g, order).Some?
    ensures var h := Eliminated(mode, g, order).value;
      forall k, j, alt :: 0 <= j <= k < |order| && order[k] in h.rules && alt in h.rules[order[k]] ==>
        Symbols(alt) != [] && !StartsWith(alt, order[j])
    ensures forall k :: 0 <= k < |order| ==> order[k] in Eliminated(mode, g, order).value.rules
  {
    StageOrdered(mode, g, order, |order| - 1);
  }

  // When the loop succeeds.

  ghost predicate Untouched(h: Grammar, g: Grammar, order: seq<string>, i: nat) {
    forall k :: i < k < |order| ==> order[k] in h.rules && order[k] in g.rules && h.rules[order[k]] == g.rules[order[k]]
  }

  /** Substituting non-empty bodies into non-empty alternatives leaves no empty
      alternative. */
  lemma SubstAtNoEmpty(mode: Splicing, h: Grammar, a: string, b: string)
    requires a in h.rules && b in h.rules
    requires !HasEmpty(h.rules[a]) && !HasEmpty(h.rules[b])
    ensures SubstAt(mode, h, a, b).Some?
    ensures !HasEmpty(SubstAt(mode, h, a, b).value.rules[a])
  {
    var result := Substituted(mode, h.rules[a], b, h.rules[b]);
    SubstitutedMembers(mode, h.rules[a], b, h.rules[b]);
    forall x | x in result
      ensures Symbols(x) != []
    {
      if !(x in h.rules[a] && !StartsWith(x, b)) {
        var alt, body :| alt in h.rules[a] && StartsWith(alt, b) && body in h.rules[b] && x == Join(mode, body, Rest(alt, b));
        JoinSymbols(mode, body, Rest(alt, b));
        assert Symbols(body) != [];
      }
    }
  }

  lemma {:induction false} SubstUpToSucceeds(mode: Splicing, h: Grammar, order: seq<string>, i: nat, j: nat)
    requires j <= i < |order|
    requires forall m :: 0 <= m <= i ==> order[m] in h.rules
    requires forall m :: 0 <= m < i ==> !HasEmpty(h.rules[order[m]])
    requires !HasEmpty(h.rules[order[i]])
    ensures SubstUpTo(mode, h, order, i, j).Some?
    ensures !HasEmpty(SubstUpTo(mode, h, order, i, j).value.rules[order[i]])
    decreases j
  {
    if j > 0 {
      SubstUpToSucceeds(mode, h, order, i, j - 1);
      var r := SubstUpTo(mode, h, order, i, j - 1).value;
      SubstUpToFrame(mode, h, order, i, j - 1);
      SubstAtNoEmpty(mode, r, order[i], order[j - 1]);
    }
  }

  /** A key with an empty alternative makes every substitution into it fail. */
  lemma SubstUpToFailsOnEmpty(mode: Splicing, h: Grammar, order: seq<string>, i: nat)
    requires 0 < i < |order| && order[i] in h.rules && HasEmpty(h.rules[order[i]])
    ensures SubstUpTo(mode, h, order, i, i).None?
  {
    assert SubstUpTo(mode, h, order, i, 1) == SubstAt(mode, h, order[i], order[0]);
    SubstUpToNoneStays(mode, h, order, i, 1, i);
  }

  /** Stages before the first key with an empty alternative succeed and leave
      the later keys untouched. */
  lemma {:induction false} PrefixStageSucceeds(mode: Splicing, g: Grammar, order: seq<string>, i: nat, m: nat)
    requires i < m <= |order| && Distinct(order) && PrimesFresh(order)
    requires forall n :: 0 <= n < |order| ==> order[n] in g.rules
    requires forall n :: 0 <= n < m ==> !HasEmpty(g.rules[order[n]])
    ensures Stage(mode, g, order, i).Some?
    ensures Untouched(Stage(mode, g, order, i).value, g, order, i)
    decreases i
  {
    if i == 0 {
      DirectAtFrame(g, order[0]);
    } else {
      PrefixStageSucceeds(mode, g, order, i - 1, m);
      PrefixStep(mode, g, order, i, m);
    }
  }

  /** The stage of key i succeeds after earlier stages that succeeded and left
      key i and the later keys untouched, and it leaves the later keys
      untouched too. */
  lemma PrefixStep(mode: Splicing, g: Grammar, order: seq<string>, i: nat, m: nat)
    requires 0 < i < m <= |order| && Distinct(order) && PrimesFresh(order)
    requires forall n :: 0 <= n < |order| ==> order[n] in g.rules
    requires forall n :: 0 <= n < m ==> !HasEmpty(g.rules[order[n]])
    requires Stage(mode, g, order, i - 1).Some?
    requires Untouched(Stage(mode, g, order, i - 1).value, g, order, i - 1)
    ensures Stage(mode, g, order, i).Some?
    ensures Untouched(Stage(mode, g, order, i).value, g, order, i)
  {
    StageShape(mode, g, order, i - 1);
    StageOrdered(mode, g, order, i - 1);
    var prev := Stage(mode, g, order, i - 1).value;
    PrefixStepFrom(mode, g, order, i, m, prev);
  }

  lemma PrefixStepFrom(mode: Splicing, g: Grammar, order: seq<string>, i: nat, m: nat, prev: Grammar)
    requires 0 < i < m <= |order| && Distinct(order) && PrimesFresh(order)
    requires forall n :: 0 <= n < |order| ==> order[n] in g.rules
    requires forall n :: 0 <= n < m ==> !HasEmpty(g.rules[order[n]])
    requires g.rules.Keys <= prev.rules.Keys
    requires Ordered(prev, order, i) && Untouched(prev, g, order, i - 1)
    ensures Proceed(mode, Some(prev), order, i).Some?
    ensures Untouched(Proceed(mode, Some(prev), order, i).value, g, order, i)
  {
    SubstUpToSucceeds(mode, prev, order, i, i);
    SubstUpToFrame(mode, prev, order, i, i);
    var s := SubstUpTo(mode, prev, order, i, i).value;
    DirectAtFrame(s, order[i]);
  }

  /** The least position at or before k whose key has an empty alternative. */
  lemma {:induction false} FirstEmpty(g: Grammar, order: seq<string>, k: nat) returns (m: nat)
    requires k < |order| && forall n :: 0 <= n < |order| ==> order[n] in g.rules
    requires HasEmpty(g.rules[order[k]])
    ensures m <= k && HasEmpty(g.rules[order[m]])
    ensures forall n :: 0 <= n < m ==> !HasEmpty(g.rules[order[n]])
    decreases k
  {
    if exists n :: 0 <= n < k && HasEmpty(g.rules[order[n]]) {
      var n :| 0 <= n < k && HasEmpty(g.rules[order[n]]);
      m := FirstEmpty(g, order, n);
    } else {
      m := k;
    }
  }

  /** The stage of the first key with an empty alternative fails: that key
      still has its original rules when its turn comes. */
  lemma FirstEmptyFails(mode: Splicing, g: Grammar, order: seq<string>, m: nat)
    requires m < |order| && Distinct(order) && PrimesFresh(order)
    requires forall n :: 0 <= n < |order| ==> order[n] in g.rules
    requires HasEmpty(g.rules[order[m]])
    requires forall n :: 0 <= n < m ==> !HasEmpty(g.rules[order[n]])
    ensures Stage(mode, g, order, m).None?
  {
    if m > 0 {
      var k := m - 1;
      PrefixStageSucceeds(mode, g, order, k, m);
      EmptyStageFails(mode, g, order, k, m);
    }
  }

  /** A stage whose key still has its original rules, one of them empty, fails. */
  lemma EmptyStageFails(mode: Splicing, g: Grammar, order: seq<string>, k: nat, m: nat)
    requires m == k + 1 && m < |order| && order[m] in g.rules && HasEmpty(g.rules[order[m]])
    requires Stage(mode, g, order, k).Some?
    requires Untouched(Stage(mode, g, order, k).value, g, order, k)
    ensures Stage(mode, g, order, m).None?
  {
    var prev := Stage(mode, g, order, k).value;
    assert order[m] in prev.rules && prev.rules[order[m]] == g.rules[order[m]];
    SubstUpToFailsOnEmpty(mode, prev, order, m);
    StageUnfold(mode, g, order, k, m);
  }

  lemma StageUnfold(mode: Splicing, g: Grammar, order: seq<string>, k: nat, m: nat)
    requires m == k + 1 && m < |order|
    ensures Stage(mode, g, order, m) == Proceed(mode, Stage(mode, g, order, k), order, m)
  {
  }

  /** The loop runs to the end exactly when the order is not empty and its keys
      have no empty alternative (given distinct keys and fresh primed names):
      every alternative it builds is non-empty. */
  lemma EliminatedSucceeds(mode: Splicing, g: Grammar, order: seq<string>)
    requires Distinct(order) && PrimesFresh(order)
    requires forall k :: 0 <= k < |order| ==> order[k] in g.rules
    ensures Eliminated(mode, g, order).Some? <==> order != [] && forall k :: 0 <= k < |order| ==> !HasEmpty(g.rules[order[k]])
  {
    if order != [] {
      if forall k :: 0 <= k < |order| ==> !HasEmpty(g.rules[order[k]]) {
        PrefixStageSucceeds(mode, g, order, |order| - 1, |order|);
      } else {
        var k :| 0 <= k < |order| && HasEmpty(g.rules[order[k]]);
        var m := FirstEmpty(g, order, k);
        FirstEmptyFails(mode, g, order, m);
        StageNoneStays(mode, g, order, m, |order| - 1);
      }
    }
  }

  // The example of a primed symbol split by the as-written splice.

  /** A -> Aa | Bd, B -> e, C -> Af, every right side a string. */
  function SplitExample(): Grammar {
    Grammar({"A", "B", "C"}, {"a", "d", "e", "f"},
            map["A" := [Str("Aa"), Str("Bd")], "B" := [Str("e")], "C" := [Str("Af")]], "A")
  }

  /** The grammar after the direct step on A: A -> Bd | BdA', A' -> a | aA'. */
  function SplitExampleAfterA(): Grammar {
    var g := SplitExample();
    g.(nonTerminals := g.nonTerminals + {"A'"},
       rules := g.rules["A" := [Str("Bd"), Lst(["B", "d", "A'"])]]["A'" := [Str("a"), Lst(["a", "A'"])]])
  }

  /** The rules of C at the end: B's body `e` spliced onto `d A' f`. */
  function SplitExampleRulesOfC(mode: Splicing): seq<Alt> {
    match mode
    case AsWritten => [Str("edf"), Str("edA'f")]
    case Intended => [Str("edf"), Lst(["e", "d", "A'", "f"])]
  }

  lemma OthersTwo(x: Alt, y: Alt, a: string, p: string)
    ensures Others([x, y], a, p) == OtherPart(x, a, p) + OtherPart(y, a, p)
  {
    assert Others([x], a, p) == OtherPart(x, a, p) by { assert [x][..0] == []; }
    assert Others([x, y], a, p) == Others([x], a, p) + OtherPart(y, a, p) by { assert [x, y][..1] == [x]; }
  }

  lemma TailsTwo(x: Alt, y: Alt, a: string, p: string)
    ensures Tails([x, y], a, p) == TailPart(x, a, p) + TailPart(y, a, p)
  {
    assert Tails([x], a, p) == TailPart(x, a, p) by { assert [x][..0] == []; }
    assert Tails([x, y], a, p) == Tails([x], a, p) + TailPart(y, a, p) by { assert [x, y][..1] == [x]; }
  }

  lemma SplicedTwo(mode: Splicing, u: Alt, v: Alt, tail: seq<string>)
    ensures Spliced(mode, [u, v], tail) == [Join(mode, u, tail), Join(mode, v, tail)]
  {
    assert Spliced(mode, [u], tail) == [Join(mode, u, tail)] by { assert [u][..0] == []; }
    assert Spliced(mode, [u, v], tail) == Spliced(mode, [u], tail) + [Join(mode, v, tail)] by { assert [u, v][..1] == [u]; }
  }

  lemma SplicedOne(mode: Splicing, u: Alt, tail: seq<string>)
    ensures Spliced(mode, [u], tail) == [Join(mode, u, tail)]
  {
    assert [u][..0] == [];
  }

  /** The substitution into a key with one or two alternatives. */
  lemma SubstitutedOne(mode: Splicing, x: Alt, b: string, bodies: seq<Alt>)
    ensures Substituted(mode, [x], b, bodies) == if StartsWith(x, b) then Spliced(mode, bodies, Rest(x, b)) else [x]
  {
    assert [x][..0] == [];
  }

  lemma SubstitutedTwo(mode: Splicing, x: Alt, y: Alt, b: string, bodies: seq<Alt>)
    ensures Substituted(mode, [x, y], b, bodies) ==
            (if StartsWith(x, b) then Spliced(mode, bodies, Rest(x, b)) else [x]) +
            (if StartsWith(y, b) then Spliced(mode, bodies, Rest(y, b)) else [y])
  {
    assert [x, y][..1] == [x];
    SubstitutedOne(mode, x, b, bodies);
  }

  lemma SplitExampleStageA(mode: Splicing)
    ensures Stage(mode, SplitExample(), ["A", "B", "C"], 0) == Some(SplitExampleAfterA())
  {
    assert Symbols(Str("Aa")) == ["A", "a"];
    assert Symbols(Str("Bd")) == ["B", "d"];
    assert Lead(["A", "a"], "A") == 1;
    OthersTwo(Str("Aa"), Str("Bd"), "A", "A'");
    TailsTwo(Str("Aa"), Str("Bd"), "A", "A'");
    assert ["A", "a"][1..] == ["a"];
    assert Slice(Str("Aa"), 1) == Str("a");
    assert Symbols(Str("a")) == ["a"];
    assert Extend(Str("a"), "A'") == Lst(["a", "A'"]);
    assert TailPart(Str("Aa"), "A", "A'") == [Str("a"), Lst(["a", "A'"])];
    assert TailPart(Str("Bd"), "A", "A'") == [];
    assert OtherPart(Str("Aa"), "A", "A'") == [];
    assert Extend(Str("Bd"), "A'") == Lst(["B", "d", "A'"]);
    assert OtherPart(Str("Bd"), "A", "A'") == [Str("Bd"), Lst(["B", "d", "A'"])];
    assert Str("Aa") in SplitExample().rules["A"] && StartsWith(Str("Aa"), "A");
    assert !HasEmpty(SplitExample().rules["A"]);
    assert Prime("A") == "A'";
    var g := SplitExample();
    assert g.rules["A"] == [Str("Aa"), Str("Bd")];
    assert Others(g.rules["A"], "A", "A'") == [Str("Bd"), Lst(["B", "d", "A'"])];
    assert Tails(g.rules["A"], "A", "A'") == [Str("a"), Lst(["a", "A'"])];
    var r := DirectAt(g, "A");
    assert r.Some?;
    assert r.value.nonTerminals == SplitExampleAfterA().nonTerminals;
    assert r.value.rules == SplitExampleAfterA().rules;
    assert DirectAt(SplitExample(), "A") == Some(SplitExampleAfterA());
  }

  /** The rules of A, B and C once A is processed. */
  ghost predicate SplitExampleRules(h: Grammar) {
    && "A" in h.rules && h.rules["A"] == [Str("Bd"), Lst(["B", "d", "A'"])]
    && "B" in h.rules && h.rules["B"] == [Str("e")]
    && "C" in h.rules && h.rules["C"] == [Str("Af")]
  }

  lemma SplitExampleAfterARules()
    ensures SplitExampleRules(SplitExampleAfterA())
  {
  }

  /** Processing B changes nothing: its one alternative does not start with A. */
  lemma SplitExampleStageB(mode: Splicing, g: Grammar, order: seq<string>, h: Grammar)
    requires order == ["A", "B", "C"]
    requires Stage(mode, g, order, 0) == Some(h) && SplitExampleRules(h)
    ensures Stage(mode, g, order, 1) == Some(h)
  {
    assert Symbols(Str("e")) == ["e"];
    SubstitutedOne(mode, Str("e"), "A", h.rules["A"]);
    assert h.rules["B" := [Str("e")]] == h.rules;
    assert SubstUpTo(mode, h, order, 1, 1) == SubstAt(mode, h, "B", "A");
    assert DirectAt(h, "B") == Some(h);
    StageUnfold(mode, g, order, 0, 1);
  }

  /** Substituting A into C: both splices give Bdf and B d A' f, since the
      tail `f` is one character. */
  lemma SplitExampleAIntoC(mode: Splicing)
    ensures Substituted(mode, [Str("Af")], "A", [Str("Bd"), Lst(["B", "d", "A'"])]) ==
            [Str("Bdf"), Lst(["B", "d", "A'", "f"])]
  {
    assert Symbols(Str("Af")) == ["A", "f"];
    assert Lead(["A", "f"], "A") == 1;
    assert Rest(Str("Af"), "A") == ["f"];
    SubstitutedOne(mode, Str("Af"), "A", [Str("Bd"), Lst(["B", "d", "A'"])]);
    SplicedTwo(mode, Str("Bd"), Lst(["B", "d", "A'"]), ["f"]);
    assert Flatten(["f"]) == "f" by {
      assert ["f"][..0] == [];
    }
    assert Chars("f") == ["f"];
    assert Join(mode, Str("Bd"), ["f"]) == Str("Bdf");
    assert Join(mode, Lst(["B", "d", "A'"]), ["f"]) == Lst(["B", "d", "A'", "f"]);
  }

  /** Substituting B into C: B's body `e` spliced onto `d f` and onto
      `d A' f`; only the second tail has a multi-character symbol. */
  lemma SplitExampleBIntoC(mode: Splicing)
    ensures Substituted(mode, [Str("Bdf"), Lst(["B", "d", "A'", "f"])], "B", [Str("e")]) == SplitExampleRulesOfC(mode)
  {
    assert Symbols(Str("Bdf")) == ["B", "d", "f"];
    assert StartsWith(Str("Bdf"), "B") && StartsWith(Lst(["B", "d", "A'", "f"]), "B");
    SubstitutedTwo(mode, Str("Bdf"), Lst(["B", "d", "A'", "f"]), "B", [Str("e")]);
    SplitExampleBdf(mode);
    SplitExampleBdPrimef(mode);
  }

  lemma SplitExampleBdf(mode: Splicing)
    ensures Spliced(mode, [Str("e")], Rest(Str("Bdf"), "B")) == [Str("edf")]
  {
    assert Symbols(Str("Bdf")) == ["B", "d", "f"];
    assert Lead(["B", "d", "f"], "B") == 1;
    assert Rest(Str("Bdf"), "B") == ["d", "f"];
    SplicedOne(mode, Str("e"), ["d", "f"]);
    assert Flatten(["d", "f"]) == "df" by {
      assert ["d", "f"][..1] == ["d"];
      assert ["d"][..0] == [];
    }
    assert Join(mode, Str("e"), ["d", "f"]) == Str("edf");
  }

  lemma SplitExampleBdPrimef(mode: Splicing)
    ensures Spliced(mode, [Str("e")], Rest(Lst(["B", "d", "A'", "f"]), "B")) == [SplitExampleRulesOfC(mode)[1]]
  {
    assert Lead(["B", "d", "A'", "f"], "B") == 1;
    assert Rest(Lst(["B", "d", "A'", "f"]), "B") == ["d", "A'", "f"];
    SplicedOne(mode, Str("e"), ["d", "A'", "f"]);
    match mode {
      case AsWritten =>
        SampleFlatten();
        assert "e" + "dA'f" == "edA'f";
      case Intended =>
        SampleNotSingleChars();
    }
  }

  /** Substituting A, then B, into C. */
  lemma SplitExampleSubstC(mode: Splicing, order: seq<string>, h: Grammar)
    requires order == ["A", "B", "C"] && SplitExampleRules(h)
    ensures SubstUpTo(mode, h, order, 2, 2) == Some(h.(rules := h.rules["C" := SplitExampleRulesOfC(mode)]))
  {
    var h1 := h.(rules := h.rules["C" := [Str("Bdf"), Lst(["B", "d", "A'", "f"])]]);
    SplitExampleSubstAC(mode, h);
    assert SubstUpTo(mode, h, order, 2, 1) == Some(h1);
    SplitExampleSubstBC(mode, h, h1);
  }

  lemma SplitExampleSubstAC(mode: Splicing, h: Grammar)
    requires SplitExampleRules(h)
    ensures SubstAt(mode, h, "C", "A") == Some(h.(rules := h.rules["C" := [Str("Bdf"), Lst(["B", "d", "A'", "f"])]]))
  {
    SplitExampleAIntoC(mode);
    assert Symbols(Str("Af")) == ["A", "f"];
    assert !HasEmpty(h.rules["C"]);
  }

  lemma SplitExampleSubstBC(mode: Splicing, h: Grammar, h1: Grammar)
    requires SplitExampleRules(h)
    requires h1 == h.(rules := h.rules["C" := [Str("Bdf"), Lst(["B", "d", "A'", "f"])]])
    ensures SubstAt(mode, h1, "C", "B") == Some(h.(rules := h.rules["C" := SplitExampleRulesOfC(mode)]))
  {
    var alts := [Str("Bdf"), Lst(["B", "d", "A'", "f"])];
    assert h1.rules["C"] == alts && h1.rules["B"] == [Str("e")];
    var c := SplitExampleRulesOfC(mode);
    assert Substituted(mode, alts, "B", [Str("e")]) == c by {
      SplitExampleBIntoC(mode);
    }
    assert !HasEmpty(alts) by {
      assert Symbols(Str("Bdf")) == ["B", "d", "f"];
      NoEmptyTwo(Str("Bdf"), Lst(["B", "d", "A'", "f"]));
    }
    assert h1.rules["C" := c] == h.rules["C" := c];
  }

  lemma NoEmptyTwo(x: Alt, y: Alt)
    requires Symbols(x) != [] && Symbols(y) != []
    ensures !HasEmpty([x, y])
  {
  }

  /** Processing C: the two substitutions, then no direct step since no
      alternative of C starts with C. */
  lemma SplitExampleStageC(mode: Splicing, g: Grammar, order: seq<string>, h: Grammar)
    requires order == ["A", "B", "C"]
    requires Stage(mode, g, order, 1) == Some(h) && SplitExampleRules(h)
    ensures Stage(mode, g, order, 2) == Some(h.(rules := h.rules["C" := SplitExampleRulesOfC(mode)]))
  {
    SplitExampleSubstC(mode, order, h);
    var h2 := h.(rules := h.rules["C" := SplitExampleRulesOfC(mode)]);
    SplitExampleRulesOfCLead(mode);
    assert DirectAt(h2, "C") == Some(h2);
    StageUnfold(mode, g, order, 1, 2);
  }

  /** Both alternatives of C at the end start with `e`. */
  lemma SplitExampleRulesOfCLead(mode: Splicing)
    ensures forall alt :: alt in SplitExampleRulesOfC(mode) ==> Symbols(alt) != [] && Symbols(alt)[0] == "e"
  {
    assert Symbols(Str("edf"))[0] == "e";
    assert Symbols(Str("edA'f"))[0] == "e";
  }

  /** On A -> Aa | Bd, B -> e, C -> Af with the key order A, B, C, the loop
      as written leaves C -> edf | edA'f, and the symbols of the second are
      e, d, A, ', f: the primed A' is split. The intended splice keeps it. */
  lemma PrimeSplitExample()
    ensures Eliminated(AsWritten, SplitExample(), ["A", "B", "C"]).Some?
    ensures Eliminated(AsWritten, SplitExample(), ["A", "B", "C"]).value.rules["C"] == [Str("edf"), Str("edA'f")]
    ensures Symbols(Str("edA'f")) == ["e", "d", "A", "'", "f"]
    ensures Eliminated(Intended, SplitExample(), ["A", "B", "C"]).Some?
    ensures Eliminated(Intended, SplitExample(), ["A", "B", "C"]).value.rules["C"] == [Str("edf"), Lst(["e", "d", "A'", "f"])]
  {
    SplitExampleFinal(AsWritten);
    SplitExampleFinal(Intended);
  }

  lemma SplitExampleFinal(mode: Splicing)
    ensures Eliminated(mode, SplitExample(), ["A", "B", "C"]) ==
            Some(SplitExampleAfterA().(rules := SplitExampleAfterA().rules["C" := SplitExampleRulesOfC(mode)]))
  {
    var g, order, h := SplitExample(), ["A", "B", "C"], SplitExampleAfterA();
    SplitExampleStageA(mode);
    SplitExampleAfterARules();
    SplitExampleStageB(mode, g, order, h);
    SplitExampleStageC(mode, g, order, h);
  }

  // remove_left_recursion as a whole.

  /** tuple(self.rules): the rule keys in some order, each once. */
  method KeyOrder(rules: map<string, seq<Alt>>) returns (order: seq<string>)
    ensures Distinct(order)
    ensures forall t :: t in order <==> t in rules
  {
    order := [];
    var left := rules.Keys;
    while left != {}
      invariant left <= rules.Keys
      invariant Distinct(order)
      invariant forall t :: t in order <==> t in rules && t !in left
      decreases left
    {
      var t :| t in left;
      order := order + [t];
      left := left - {t};
    }
  }

  /** remove_left_recursion: the loop over the keys of the input in some
      order, starting from a copy (the same value here). None stands for the
      IndexError the source raises. */
  method RemoveLeftRecursion(g: Grammar) returns (r: Option<Grammar>, order: seq<string>)
    ensures Distinct(order) && (forall t :: t in order <==> t in g.rules)
    ensures r == Eliminated(AsWritten, g, order)
  {
    order := KeyOrder(g.rules);
    r := EliminateLeftRecursion(g, order);
  }

  /** For a grammar with rules, remove_left_recursion succeeds exactly when no
      alternative is empty (given fresh primed names), and then no key is
      left-recursive through the order. */
  lemma RemoveLeftRecursionOutcome(mode: Splicing, g: Grammar, order: seq<string>)
    requires Distinct(order) && (forall t :: t in order <==> t in g.rules)
    requires PrimesFresh(order)
    ensures Eliminated(mode, g, order).Some? <==> g.rules != map[] && forall a :: a in g.rules ==> !HasEmpty(g.rules[a])
    ensures Eliminated(mode, g, order).Some? ==>
              var h := Eliminated(mode, g, order).value;
              forall k, j, alt :: 0 <= j <= k < |order| && order[k] in h.rules && alt in h.rules[order[k]] ==>
                Symbols(alt) != [] && !StartsWith(alt, order[j])
  {
    EliminatedSucceeds(mode, g, order);
    OrderCoversKeys(g, order);
    if Eliminated(mode, g, order).Some? {
      NoLeftRecursion(mode, g, order);
    }
  }

  lemma OrderCoversKeys(g: Grammar, order: seq<string>)
    requires forall t :: t in order <==> t in g.rules
    ensures order != [] <==> g.rules != map[]
    ensures (forall k :: 0 <= k < |order| ==> !HasEmpty(g.rules[order[k]])) <==> (forall a :: a in g.rules ==> !HasEmpty(g.rules[a]))
  {
    if order == [] {
      assert g.rules.Keys == {};
    } else {
      assert order[0] in g.rules;
    }
    if forall k :: 0 <= k < |order| ==> !HasEmpty(g.rules[order[k]]) {
      forall a | a in g.rules
        ensures !HasEmpty(g.rules[a])
      {
        var k :| 0 <= k < |order| && order[k] == a;
      }
    }
  }
}
