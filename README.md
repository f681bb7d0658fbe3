# Context-free grammar transformations, modelled in Dafny

This project models the grammar-transformation core of a small Python library
for context-free grammars. The library has three parts:

- The token-based grammar `CFG` of `grammar.py`. A symbol is a `Token` with a
  lexem and a type. A right side is given as a string, whose characters are
  its symbols, or as a list of symbol names such as `['c', 'c', "A'"]`.
  Construction checks the caller's sets and rule dictionary and turns every
  symbol into a token. Equality compares rule lists as multisets. The analyses and
  transformations are: productive ("good") non-terminals, emptiness of the
  language, removal of unproductive rules, of unreachable symbols, of useless
  symbols and of chain rules, and the removal of left recursion.
- The older string-based `Grammar` of `main.py`. A symbol is a string and an
  alternative is a Python string or a list of strings. It has the same
  analyses and its own version of left-recursion removal.
- The normal-form converters of `greibach/`. A grammar is an ordered list of
  rules `lhs -> rhs` over one-character symbols. `Chomsky.convert` rewrites
  the rules into Chomsky shape. `Greibach.convert` ranks the non-terminals,
  then sorts the rules by rank, removes immediate left recursion and
  substitutes until every right side starts with a terminal.

The token grammar and the string grammar are immutable values. Each
transformation returns a new grammar, so both are datatypes. Every loop of the
source is a method with a `while` loop, and each such method is proved equal
to a specification function. Those functions are characterised by lemmas:

- least fixed points for productive and reachable symbols;
- the chain closure;
- membership of rebuilt rule lists;
- what a step leaves alone;
- when the elimination succeeds and that no left recursion is left.

In `main.py`'s left-recursion removal, the step that joins a body of `B` to
the rest of `Bα` is a parameter with two values. One is the `+=` of the code,
which spells a multi-character symbol out character by character. The other is
the symbol-wise splice the code evidently intends (see Findings). The methods
run the `+=` splice, and the ordering and success lemmas hold for both.

The two converters update their grammar in place, so they are classes. Each
method states the new rule list as a function of the old one. Every
restarting `while True` loop is a fuel-bounded `Pass` of a step function.
Lemmas say what each pass guarantees when it ends.

Files:

| file | module | models |
|---|---|---|
| tokens.dfy | Tokens | `Token` and the `to_*` converters |
| cfg.dfy | Cfg | the `CFG` value, its construction, equality and the good-alternative test |
| productivity.dfy | Productivity | good non-terminals, emptiness, removal of bad rules |
| reachability.dfy | Reachability | unreachable symbols and useless symbols |
| chain.dfy | ChainRules | chain closures and removal of chain rules |
| left_recursion.dfy | LeftRecursion | `CFG.remove_left_recursion` |
| legacy.dfy | Legacy | the `main.py` grammar and its analyses |
| legacy_recursion.dfy | LegacyRecursion | `Grammar.remove_left_recursion` of `main.py` |
| chomsky.dfy | Chomsky | `Chomsky.convert` and `check_start_symbol_is_used` |
| greibach.dfy | Greibach | `Greibach.convert` and its four passes |

## Model

| member | source | states |
|---|---|---|
| Tokens.NamesToTokens | grammar.py:34-37 | one `char` token per symbol name, at the same position |
| Tokens.LexemsNamesToTokens | grammar.py:34-37 | the lexems of the tokens give the symbol names back, in order |
| Tokens.TokenizeProperties | grammar.py:34-40 | a right side is never an empty token list; a right side without symbols (the empty string or the empty list) gives the single epsilon token `Token('', 'char')`; otherwise one token per symbol, where a string's symbols are its characters and a list's are its elements; the lexems give the symbols back |
| Tokens.ToArrayOfTokens | grammar.py:34-40 | the loop over the symbols of a string or list right side builds exactly its tokenization |
| Tokens.ToSetOfTokens | grammar.py:42-46 | a token is in the result iff its type is `char` and its lexem is one of the names |
| Tokens.ToDictOfTokens | grammar.py:48-55 | the keys are the tokenized names; each key keeps its number of right sides and each right side, string or list, is tokenized in order |
| Cfg.NewCFG | grammar.py:59-80 | construction fails with the first violated check (axiom not a non-terminal, a key not a non-terminal, an undeclared right-side symbol); it succeeds iff all three hold, and then gives the tokenized grammar, which is well formed |
| Cfg.AllSymbolsDeclared | grammar.py:64-69 | the triple loop answers exactly whether every symbol of every right side (each character of a string, each element of a list) is a terminal or a non-terminal |
| Cfg.TokenRulesWellFormed | grammar.py:59-80 | a constructed grammar's keys are non-terminals, and every alternative is non-empty and is the epsilon token or made of declared symbols |
| Cfg.ListBodyExample | grammar.py:64-69 | with list right sides, `A -> dc \| [d, c, A'], A' -> c \| [c, A']` has only declared symbols and `[d, c, A']` becomes three tokens; the empty list becomes epsilon; the string `dcA'` has the undeclared symbol `'` |
| Cfg.EqualIsEquivalence | grammar.py:93-103 | `__eq__` is reflexive, symmetric and transitive, and equal rule lists imply equal grammars |
| Cfg.EqualIgnoresOrder | grammar.py:93-103 | replacing one key's alternatives keeps the grammar equal exactly when the new list is a reordering of the old one (same alternatives, same number of copies) |
| Cfg.GoodMonotone | grammar.py:145-151 | more good non-terminals never make a good alternative bad |
| Cfg.EpsilonNeverGood | grammar.py:145-151 | an empty right side is never good, and neither is the epsilon alternative unless the empty name is declared |
| Productivity.ProductiveIsLeastClosed | grammar.py:153-176 | the productive set is closed (a key with a good alternative is in it) and every member has a good alternative over the set |
| Productivity.LeastClosedIsProductive | grammar.py:153-176 | any set closed in both directions is the productive set |
| Productivity.GoodNonTerminals | grammar.py:153-176 | the fixed-point loop returns exactly the productive keys, and the result is closed and self-supported |
| Productivity.GoodPass | grammar.py:161-168 | one sweep over the keys only grows the productive set, stays below every closed set, and leaves out exactly keys none of whose alternatives is made of terminals and previously productive keys |
| Productivity.SomeGood | grammar.py:162-168 | the inner scan of one key succeeds iff some alternative is made of terminals and productive keys |
| Productivity.IsNotEmpty | grammar.py:178-179 | true iff the axiom is productive |
| Productivity.NoRulesNoneProductive | grammar.py:153-176 | a grammar without rules has no productive non-terminal |
| Productivity.EpsilonOnlyUnproductive | grammar.py:145-176 | a key whose alternatives are all empty or epsilon is not productive |
| Productivity.FilterGood | grammar.py:197-202 | the kept alternatives are exactly the good ones, in order |
| Productivity.RemoveBadNonTerminalsAndRules | grammar.py:181-205 | None iff the axiom is unproductive; otherwise the grammar pruned to productive keys and good alternatives |
| Productivity.KeepGood | grammar.py:197-200 | the buffer holds, in order, exactly the alternatives made of terminals and productive keys |
| Productivity.PruneKeepsOnlyProductive | grammar.py:181-203 | the pruned grammar's non-terminals are the productive ones; it keeps the productive keys and only good alternatives, and it keeps every good alternative; terminals and axiom are unchanged |
| Productivity.PruneAllProductive | grammar.py:181-203 | pruning does not change which non-terminals are productive |
| Productivity.PruneIdempotent | grammar.py:181-203 | pruning a pruned grammar changes nothing |
| Productivity.FilterGoodKeepsAll | grammar.py:197-202 | filtering a list of good alternatives keeps the list |
| Reachability.ReachableIsLeastClosed | grammar.py:207-244 | the reachable set contains the axiom, is closed under rule successors and is the least such set |
| Reachability.LeastReachClosedIsReachable | grammar.py:207-244 | any set closed in both directions is the reachable set |
| Reachability.ScanKey | grammar.py:224-231 | scanning one key adds exactly its non-terminal successors and its terminals |
| Reachability.ScanAlternative | grammar.py:227-231 | scanning one alternative adds exactly its non-terminals to the found set and its terminals to the reached terminals |
| Reachability.ScanPass | grammar.py:219-231 | one pass over the keys stays below every set closed under successors and adds all successors and terminals of the frontier |
| Reachability.ReachableSymbols | grammar.py:207-244 | the worklist loop returns the reachable non-terminals and the terminals that occur in their rules |
| Reachability.ReachedTerminalsComplete | grammar.py:224-229 | the collected terminals are exactly those in rules of reached keys |
| Reachability.RemoveUnreachableSymbols | grammar.py:207-265 | the result is the unreachable-free grammar, with the lone-axiom epsilon rule fallback |
| Reachability.WithoutUnreachableShape | grammar.py:246-265 | the result keeps the axiom; its non-terminals are the reachable ones and its terminals the reached ones; each reachable key keeps its rules |
| Reachability.WithoutUnreachableIdempotent | grammar.py:207-265 | a second removal of unreachable symbols changes nothing |
| Reachability.RemoveUselessSymbols | grammar.py:267-277 | the result is pruning followed by reachability, or the one-rule grammar of the axiom when the language is empty |
| Reachability.WithoutUselessAllUseful | grammar.py:267-277 | for a non-empty language every remaining non-terminal is productive and reachable in the result |
| Reachability.RestrictKeepsProductive | grammar.py:255-265 | dropping unreachable keys from a fully productive grammar keeps every remaining key productive |
| Reachability.BinaryExampleProductive | grammar.py:153-176 | in S -> 0 \| 1 \| 0S \| 1S, S is the only productive symbol |
| Reachability.BinaryExamplePruned | grammar.py:181-203 | pruning S -> 0 \| 1 \| 0S \| 1S to its productive symbols changes nothing |
| Reachability.BinaryExampleReachable | grammar.py:207-244 | in S -> 0 \| 1 \| 0S \| 1S, S is the only reachable symbol, and 0 and 1 are the reached terminals |
| Reachability.BinaryExampleUnchanged | grammar.py:267-277 | remove_useless_symbols leaves S -> 0 \| 1 \| 0S \| 1S as it is |
| Reachability.DeadEndProductive | grammar.py:153-176 | in S -> a \| A, A -> AB, B -> b the productive symbols are S and B |
| Reachability.DeadEndPruned | grammar.py:181-203 | pruning that grammar leaves S -> a and B -> b |
| Reachability.DeadEndReachable | grammar.py:207-244 | in S -> a, B -> b only S is reachable and only a is reached |
| Reachability.DeadEndUnreachableRemoved | grammar.py:246-265 | removing unreachable symbols from S -> a, B -> b leaves S -> a over the terminal a |
| Reachability.DeadEndRemoved | grammar.py:267-277 | remove_useless_symbols turns S -> a \| A, A -> AB, B -> b into S -> a |
| ChainRules.ChainClosureIsLeast | grammar.py:403-414 | the chain closure of a key excludes the key, holds only non-terminals, is closed under chain rules and contains only targets of chain rules |
| ChainRules.FillChain | grammar.py:403-414 | the recursive fill adds only non-terminals other than the key, and every chain successor of the visited symbol ends up in the value |
| ChainRules.ChainClosure | grammar.py:365-371 | the computed set is exactly the chain closure of the key |
| ChainRules.NonChain | grammar.py:379-392 | the kept alternatives are exactly those that are not chain rules |
| ChainRules.AppendNonChain | grammar.py:390-392 | the loop appends the non-chain alternatives in order |
| ChainRules.CollectAlternatives | grammar.py:376-392 | a key collects its own non-chain alternatives and then those of each member of its closure, in some order of the closure, duplicates included; the list holds exactly what is offered |
| ChainRules.ChainClosures | grammar.py:365-371 | every non-terminal is mapped to its chain closure |
| ChainRules.ChainFreeRuleMap | grammar.py:373-395 | a key gets a rule list iff it has rules and something is offered to it; the list is its own non-chain alternatives followed by those of the members of its closure in some order, duplicates included |
| ChainRules.RemoveChainRules | grammar.py:360-401 | the result is such a chain-free rule map with unreachable symbols removed and the original terminals restored |
| ChainRules.GatheredMembers | grammar.py:383-392 | the alternatives gathered from a list of keys are exactly the non-chain alternatives of those keys |
| ChainRules.ChainFreeListMembers | grammar.py:376-392 | whatever the order of the closure, the list of a key holds exactly what is offered to it |
| ChainRules.DuplicateExampleClosure | grammar.py:365-371 | for A -> B \| x, B -> x the chain closure of A is B alone |
| ChainRules.DuplicateExampleList | grammar.py:376-392 | for A -> B \| x, B -> x the only list A can get is x, x |
| ChainRules.DuplicatesKept | grammar.py:360-401 | remove_chain_rules on A -> B \| x, B -> x gives A the list x, x: duplicates are kept |
| ChainRules.ChainRulesRemoved | grammar.py:360-401 | no alternative of the result is a chain rule; terminals and axiom are kept; each kept key has its chain-free list |
| LeftRecursion.OthersMembers | grammar.py:315-320 | the new rules of `A` are exactly `β` and `βA'` for the alternatives `β` not starting with `A` |
| LeftRecursion.TailsMembers | grammar.py:299-314 | the rules of `A'` are exactly `α` and `αA'` for the alternatives `Aα` |
| LeftRecursion.SplicedMembers | grammar.py:337-349 | spliced bodies are exactly the non-empty `body + tail` |
| LeftRecursion.SubstitutedMembers | grammar.py:333-352 | after substitution, a key's alternatives are those not starting with `B`, plus `β + α` for each `Bα` and each rule `B -> β` |
| LeftRecursion.DirectStep | grammar.py:292-325 | the loop computes the direct step: None on an empty alternative, otherwise the grammar with `A` and `A'` rewritten or unchanged |
| LeftRecursion.SubstStep | grammar.py:333-352 | the loop computes the substitution of `B` into `A` |
| LeftRecursion.SubstituteEarlier | grammar.py:330-356 | the inner loop substitutes all earlier keys in order |
| LeftRecursion.EliminateLeftRecursion | grammar.py:289-358 | the outer loop computes the staged elimination over the key order |
| LeftRecursion.NextStage | grammar.py:330-356 | advancing the key index once computes the next stage of the elimination from the current grammar |
| LeftRecursion.DirectAtFrame | grammar.py:292-325 | the direct step keeps axiom and terminals, adds at most `A'`, and changes only the rules of `A` and `A'` |
| LeftRecursion.SubstAtFrame | grammar.py:333-352 | a substitution changes only the rules of `A` |
| LeftRecursion.StageShape | grammar.py:286-358 | every stage keeps axiom, terminals, symbols and keys, and adds only primed symbols of processed keys |
| LeftRecursion.StageNoneStays | grammar.py:286-358 | once a stage raises, every later stage and the result raise |
| LeftRecursion.StageOrdered | grammar.py:286-358 | after key i no alternative of keys 0..i is empty or starts with a key at or before it |
| LeftRecursion.NoLeftRecursion | grammar.py:279-358 | in the result no key's alternative starts with itself or an earlier key, and every key still has rules |
| LeftRecursion.StageSucceeds | grammar.py:286-358 | with no empty alternatives every stage succeeds and later keys are untouched |
| LeftRecursion.EliminatedSucceeds | grammar.py:286-358 | with at least one key and no empty alternative the loop succeeds |
| LeftRecursion.WithoutUselessNoEmpty | grammar.py:267-277 | useless-symbol removal of a non-empty language leaves no empty alternative |
| LeftRecursion.ChainRemovalNoEmpty | grammar.py:360-401 | chain-rule removal introduces no empty alternative |
| LeftRecursion.KeyOrder | grammar.py:289 | the key order lists every rule key exactly once |
| LeftRecursion.RemoveLeftRecursion | grammar.py:279-358 | for an empty language the one-rule epsilon grammar; otherwise the elimination over the simplified chain-free grammar, which has no empty alternative |
| LeftRecursion.RemoveLeftRecursionOutcome | grammar.py:279-358 | for a simplified grammar with a key, the elimination succeeds and leaves no left recursion through the order |
| Legacy.NewGrammar | main.py:8-24 | construction fails iff the axiom or a rule key is not a non-terminal, with the matching error; otherwise it keeps the given sets and rules |
| Legacy.UndeclaredSymbolAccepted | main.py:8-12 | right sides are not checked: a rule using an undeclared symbol is accepted |
| Legacy.EqualSeesOrderAndForm | main.py:26-27 | `__eq__` tells apart two orders of the same alternatives, and a string alternative from the equal list alternative |
| Legacy.IsContainNNMonotone | main.py:126-131 | more good symbols never make a good alternative bad |
| Legacy.ProductiveIsLeastClosed | main.py:133-155 | the productive set is closed and self-supported |
| Legacy.LeastClosedIsProductive | main.py:133-155 | any set closed in both directions is the productive set |
| Legacy.GoodNonTerminals | main.py:133-155 | the fixed-point loop returns exactly the productive keys |
| Legacy.IsNotEmpty | main.py:157-158 | true iff the axiom is productive |
| Legacy.EmptyStringUnproductive | main.py:126-155 | a key whose alternatives are all empty is unproductive |
| Legacy.FilterNN | main.py:176-179 | the kept alternatives are exactly the good ones |
| Legacy.RemoveBadNonTerminalsAndRules | main.py:160-184 | None iff the axiom is unproductive; otherwise the pruned grammar |
| Legacy.KeepGood | main.py:176-179 | the buffer holds, in order, exactly the alternatives made of terminals and productive keys |
| Legacy.PruneKeepsOnlyProductive | main.py:160-182 | the pruned grammar has only productive keys and non-terminals and only good alternatives |
| Legacy.ReachableIsLeastClosed | main.py:29-67 | the reachable set is the least set holding the axiom and closed under rule successors |
| Legacy.LeastReachClosedIsReachable | main.py:29-67 | any set closed in both directions is the reachable set |
| Legacy.ScanKey | main.py:46-54 | scanning one key adds exactly its non-terminal successors and its terminals |
| Legacy.ScanSymbols | main.py:50-54 | scanning one alternative adds exactly its non-terminals and terminals |
| Legacy.ScanPass | main.py:41-58 | one pass keeps the found set below every closed set and adds all successors of the frontier |
| Legacy.ReachableSymbols | main.py:29-67 | the loop returns the reachable symbols and the terminals reached from them |
| Legacy.RemoveUnreachableSymbols | main.py:69-86 | the result is the unreachable-free grammar, with terminals narrowed in both branches |
| Legacy.WithoutUnreachableShape | main.py:69-86 | the result keeps the axiom; its non-terminals are the reachable ones and its terminals the reached ones; kept keys keep their rules and no epsilon rule is added |
| Legacy.RemoveUselessSymbols | main.py:186-193 | None iff the language is empty; otherwise pruning followed by reachability |
| Legacy.WithoutUselessShape | main.py:186-193 | every remaining alternative is good for the input's productive set; non-terminals are productive |
| LegacyRecursion.Lead | main.py:211-216 | the count of leading copies of `A`, and the next symbol is not `A` |
| LegacyRecursion.LeadingCopies | main.py:211-216 | the skip loop computes that count |
| LegacyRecursion.SliceSymbols | main.py:219 | slicing an alternative drops exactly its first k symbols |
| LegacyRecursion.RebuildOne | main.py:209-228 | one alternative contributes its tail part and its other part |
| LegacyRecursion.Rebuild | main.py:209-228 | the loop succeeds iff no alternative is empty, and then builds the rules of `A'` and the new rules of `A` |
| LegacyRecursion.RebuildStep | main.py:209-228 | adding one alternative extends the rules of `A'` and the new rules of `A` by that alternative's parts |
| LegacyRecursion.OthersMembers | main.py:224-228 | the new rules of `A` are exactly `β` and `β + [A']` for the alternatives not starting with `A` |
| LegacyRecursion.TailsMembers | main.py:210-223 | the rules of `A'` come from the alternatives starting with `A`: each with every leading `A` stripped, alone and followed by `A'`; alternatives made only of `A` are dropped |
| LegacyRecursion.DirectStep | main.py:204-234 | the loop computes the direct step: None on an empty alternative |
| LegacyRecursion.DirectAtStripsAll | main.py:204-231 | after the direct step no rule of `A` or `A'` is empty or starts with `A` |
| LegacyRecursion.AppendTail | main.py:244-255 | the `+=` loop computes the as-written splice |
| LegacyRecursion.SpliceAsWrittenSymbols | main.py:244-255 | the as-written splice yields the body's symbols followed by the characters of the tail, not its symbols |
| LegacyRecursion.SplicePrimeSplit | main.py:244-255 | concrete input on which a primed symbol of the tail is split into two symbols |
| LegacyRecursion.SpliceSymbols | main.py:244-255 | the corrected splice yields the body's symbols followed by the tail's symbols |
| LegacyRecursion.SpliceAgrees | main.py:244-255 | when every tail symbol is one character, the corrected splice equals the as-written one |
| LegacyRecursion.JoinSymbols | main.py:244-255 | either splice starts with exactly the symbols of the body |
| LegacyRecursion.SplicedMembers | main.py:243-256 | the spliced bodies are exactly the splices of each body with the tail, for either splice: the `+=` one of main.py or the corrected one |
| LegacyRecursion.SubstitutedMembers | main.py:240-258 | after substitution a key's alternatives are those not starting with `B`, plus, for each `Bα` and each body of `B`, that body spliced with the rest of `Bα`, for either splice |
| LegacyRecursion.SubstStep | main.py:240-259 | the loop computes the substitution of `B` into `A`, each body extended with `+=` as main.py does |
| LegacyRecursion.SubstituteInto | main.py:241-258 | an alternative starting with `B` becomes every body of `B` extended with `+=` by what follows the leading copies of `B`; any other alternative is kept as it is |
| LegacyRecursion.SubstituteEarlier | main.py:237-263 | the inner loop substitutes all earlier keys in order, with the `+=` splice |
| LegacyRecursion.EliminateLeftRecursion | main.py:199-266 | the outer loop computes the staged elimination with the `+=` splice |
| LegacyRecursion.NextStage | main.py:237-263 | advancing the key index once computes the next stage of the elimination, with the `+=` splice, from the current grammar |
| LegacyRecursion.StageNoneStays | main.py:199-266 | once a stage raises, every later stage and the result raise, for either splice |
| LegacyRecursion.StageShape | main.py:199-266 | every stage keeps axiom and terminals and adds only primed symbols of processed keys, for either splice |
| LegacyRecursion.PrimesNotRewritten | main.py:229-231 | a primed key's rules are never rewritten after its key is processed, for either splice |
| LegacyRecursion.StageOrdered | main.py:199-266 | after key i no alternative of keys 0..i is empty or starts with a key at or before it, for either splice |
| LegacyRecursion.NoLeftRecursion | main.py:199-266 | in the result no key's alternative starts with itself or an earlier key, for either splice |
| LegacyRecursion.SubstUpToFailsOnEmpty | main.py:241-242 | an empty alternative of a later key makes the substitution raise, for either splice |
| LegacyRecursion.FirstEmptyFails | main.py:199-266 | the stage of the first key with an empty alternative raises, for either splice |
| LegacyRecursion.EliminatedSucceeds | main.py:199-266 | the loop succeeds iff there is a key and no key has an empty alternative, for either splice |
| LegacyRecursion.KeyOrder | main.py:201 | the tuple of keys lists every key exactly once |
| LegacyRecursion.RemoveLeftRecursion | main.py:199-266 | the method computes the elimination with the `+=` splice over some order of the keys |
| LegacyRecursion.RemoveLeftRecursionOutcome | main.py:199-266 | it succeeds iff there are rules and none is empty, and then no left recursion is left through the order, for either splice |
| LegacyRecursion.PrimeSplitExample | main.py:199-266 | on A -> Aa \| Bd, B -> e, C -> Af with key order A, B, C, the `+=` elimination succeeds and gives C the string `edA'f`, whose symbols are e, d, A, ', f; the corrected one gives C the symbols e, d, A', f |
| Chomsky.Unused | greibach/Chomsky.py:22 | a fresh symbol is an unused candidate; None only when every candidate is used |
| Chomsky.FirstMatch | greibach/Chomsky.py:19-40 | the first rule the `for` loop acts on, with no earlier rule matching |
| Chomsky.StepDecreases | greibach/Chomsky.py:18-42 | each rewriting step lowers the total weight, so the `while True` loop ends |
| Chomsky.RunShape | greibach/Chomsky.py:18-42 | when the loop ends every right side has at most two symbols, and no two-symbol right side holds a terminal |
| Chomsky.StepExtends | greibach/Chomsky.py:20-40 | a step keeps the earlier rules' left sides and short rules, and appends rules only for fresh candidates |
| Chomsky.RunExtends | greibach/Chomsky.py:18-42 | the whole loop keeps every original rule's left side and every rule of at most one symbol |
| Chomsky.ChomskyConverter.constructor | greibach/Chomsky.py:7 | the converter holds the given rules, non-terminals and start symbol |
| Chomsky.ChomskyConverter.CheckStartSymbolIsUsed | greibach/Chomsky.py:46-50 | true iff the start symbol occurs on some right side |
| Chomsky.ChomskyConverter.AddStartRule | greibach/Chomsky.py:13-16 | `$ -> S` is put in front and `$` added to the non-terminals exactly when the start symbol is used |
| Chomsky.ChomskyConverter.FindRule | greibach/Chomsky.py:19-35 | the scan returns the first rule the loop acts on |
| Chomsky.ChomskyConverter.FixTerminals | greibach/Chomsky.py:20-33 | the terminal-fix step as specified, each terminal replaced by a fresh rule |
| Chomsky.ChomskyConverter.SplitRule | greibach/Chomsky.py:35-40 | the split step as specified, `A -> Xβ` becoming `A -> XN` and `N -> β` |
| Chomsky.ChomskyConverter.Convert | greibach/Chomsky.py:13-44 | the conversion is the start-rule step followed by the loop; on success the rules are in Chomsky shape; the start symbol is unchanged |
| Greibach.IndexOf | greibach/Greibach.py:29-31 | the rank of a symbol is its first position in the order |
| Greibach.OrderMembers | greibach/Greibach.py:26-32 | the ranked symbols are exactly the non-terminals occurring in the rules |
| Greibach.OrderDistinct | greibach/Greibach.py:29-32 | no symbol is ranked twice |
| Greibach.OrderByFirstOccurrence | greibach/Greibach.py:26-32 | a lower rank means an earlier first occurrence in the rule symbols |
| Greibach.RankInverse | greibach/Greibach.py:24-32 | `mapping` and `reverse_mapping` are inverse bijections between the non-terminals and 0..n-1 |
| Greibach.RankCovers | greibach/Greibach.py:24-32 | every left side and every non-terminal on a right side is ranked |
| Greibach.IndicesOf | greibach/Greibach.py:38 | the indices of the rules for a symbol: all of them, in ascending order |
| Greibach.AppendedMembers | greibach/Greibach.py:39-41 | the appended rules are exactly `A -> β + α` for the found rules, one per index |
| Greibach.RemoveFirstAt | greibach/Greibach.py:42 | `list.remove` of the first equal rule removes position i |
| Greibach.SubstituteMembers | greibach/Greibach.py:38-42 | the step keeps the other rules in order and appends exactly `A -> βα` for every rule `B -> β` |
| Greibach.SubstituteKeeps | greibach/Greibach.py:38-42 | substitution keeps all right sides non-empty and all non-terminals ranked |
| Greibach.Scan | greibach/Greibach.py:36-37 | the first rule that is not skipped |
| Greibach.PassExit | greibach/Greibach.py:35-45 | a pass ends normally only where its step finds nothing to do |
| Greibach.SubstPassExit | greibach/Greibach.py:35-45 | a substitution pass ends only when every rule is skipped |
| Greibach.SortPassExit | greibach/Greibach.py:34-45 | after `sort_rules` every right side is non-empty, and a leading non-terminal is ranked at or above its left side |
| Greibach.SortPassNeverFails | greibach/Greibach.py:34-45 | with non-empty right sides and all symbols ranked, `sort_rules` never raises |
| Greibach.FailingRuleBlocks | greibach/Greibach.py:37 | a rule the test raises on stops a pass from ending normally |
| Greibach.RecursionRewriteMembers | greibach/Greibach.py:50-59 | the rewrite keeps the other rules, appends `Z -> α` and `Z -> αZ`, then exactly `A -> βZ` for the other rules of `A` |
| Greibach.RecursionPassExit | greibach/Greibach.py:47-62 | after `remove_left_recursion` no rule is empty or starts with its own left side |
| Greibach.LeadPassExit | greibach/Greibach.py:64-74 | after `make_rhs_first_symbol_terminal` every right side is non-empty and starts with a non-non-terminal |
| Greibach.GreibachFormShape | greibach/Greibach.py:13-22 | when the conversion ends, every rule is in Greibach form |
| Greibach.EmptyRuleRejected | greibach/Greibach.py:13-22 | a rule with an empty right side means the conversion never ends normally |
| Greibach.GreibachConverter.constructor | greibach/Greibach.py:8-11 | the converter starts with empty mappings |
| Greibach.GreibachConverter.RankSymbols | greibach/Greibach.py:28-32 | the inner loop ranks the new non-terminals of one rule with the next numbers |
| Greibach.GreibachConverter.MapNonTerminalToOrderedSymbols | greibach/Greibach.py:24-32 | the two maps become the rank map and its inverse over the first-occurrence order |
| Greibach.GreibachConverter.FindFirst | greibach/Greibach.py:36-37 | the `for` loop stops at the first rule that is not skipped |
| Greibach.GreibachConverter.SubstituteAt | greibach/Greibach.py:38-42 | the in-place step yields the substituted rule list and changes nothing else |
| Greibach.GreibachConverter.RewriteRecursionAt | greibach/Greibach.py:51-59 | the in-place rewrite yields the recursion rewrite and changes nothing else |
| Greibach.GreibachConverter.AppendOtherBodies | greibach/Greibach.py:55-58 | the loop appends `A -> βZ` for every found index except the current rule |
| Greibach.GreibachConverter.AppendBody | greibach/Greibach.py:56-58 | appending one body keeps the rule list equal to the original rules followed by `A -> βZ` for the indices handled so far |
| Greibach.GreibachConverter.SubstitutionPass | greibach/Greibach.py:35-45 | the restart loop computes the fuel-bounded pass |
| Greibach.GreibachConverter.SubstStepOnce | greibach/Greibach.py:36-45 | one scan for an out-of-order rule takes the same step as the functional pass and changes the rules only when it rewrites |
| Greibach.GreibachConverter.SubstRound | greibach/Greibach.py:35-45 | one round of the restart loop uses up fuel and keeps the remaining pass equal to the pass from the start, or ends with that pass's outcome |
| Greibach.GreibachConverter.SortRules | greibach/Greibach.py:34-45 | `sort_rules` is the pass with the rank test |
| Greibach.GreibachConverter.MakeRhsFirstSymbolTerminal | greibach/Greibach.py:64-74 | the pass with the leading non-terminal test |
| Greibach.GreibachConverter.RemoveLeftRecursion | greibach/Greibach.py:47-62 | the pass with the self-recursion rewrite |
| Greibach.GreibachConverter.RecursionStepOnce | greibach/Greibach.py:49-62 | one scan for a self-recursive rule takes the same step as the functional pass and changes the rules only when it rewrites |
| Greibach.GreibachConverter.RecursionRound | greibach/Greibach.py:48-62 | one round of the restart loop uses up fuel and keeps the remaining pass equal to the pass from the start, or ends with that pass's outcome |
| Greibach.GreibachConverter.Convert | greibach/Greibach.py:13-22 | the conversion is the Chomsky loop, the ranking and the three passes, and on success the rules are the result; the start symbol is unchanged; when the Chomsky loop succeeds the non-terminals are those after the start-rule step and the two maps rank the symbols of its rules, otherwise rules, non-terminals and maps are as before |

## Left out

- Printing (`CFG.print`, `Grammar.print`, `Token.__str__`) and the messages of the converters are not modelled.
- `Token.__hash__`, `Token.__lt__` and `copy` are not modelled. Tokens are values, so a copy is the same value, and `__eq__` is datatype equality.
- A rule value given as a bare string instead of a list of right sides is iterated character by character by Python. The model takes the list of right sides; such a string is the list of its one-character string right sides.
- `sorted` in `CFG.__eq__` is modelled as multiset equality of each rule list, which is what comparing sorted lists decides.
- Set and dictionary iteration order is left open. Loops over sets pick any element, and the key order of both `remove_left_recursion` functions is any order of the keys.
- The simplification that `Chomsky.convert` runs first is not part of this model: `Simplifier`, `Converter`, `Rule`, `util` and the `greibach` grammar class are not part of it. The loop starts from the given rules.
- `is_terminal` and `is_non_terminal` of `util` are parameters.
- `get_unused_non_terminal` is modelled as the first candidate from a given list that occurs in no rule and is not a non-terminal. None stands for running out of candidates. New symbols are not added to the non-terminal set, because the source does not show that.
- `find_rules_by_lhs` is taken to return ascending indices. `get_all_rule_symbols` is taken to list the left side and then the right side.
- Greibach.GreibachConverter.SortRules, Greibach.GreibachConverter.RemoveLeftRecursion and Greibach.GreibachConverter.MakeRhsFirstSymbolTerminal: each restarting loop runs for at most `fuel` rewriting steps. The source does not show that these loops end, so a run past the fuel is OutOfFuel rather than an endless loop.
- Exceptions are modelled as results: None, Failed or an error value. Python's `print(e)` in the handler is not modelled.
- The start symbol is not reassigned to `$` after the start rule is added, because the source only adds the rule.
- Language equivalence of a grammar before and after a transformation is not stated. The lemmas state the structural properties each transformation promises.
- A primed name that collides with an existing symbol is not handled. The left-recursion lemmas require that no primed name is already a key.
- Greibach normal form is stated as the shape of the result only. Termination of the full conversion is not proved, beyond the Chomsky loop.

## Findings

| source | as written | input that shows it | evidently intended | confidence | as-written member | corrected member |
|---|---|---|---|---|---|---|
| main.py:244-255 | the remaining symbols of `Bα` are appended to a copy of the body of `B` with `+=`, which adds a string symbol character by character, so a primed non-terminal such as `A'` turns into the two symbols `A` and `'` | A -> Aa \| Bd, B -> e, C -> Af, key order A, B, C: substituting A into C gives `Bdf` and the list B, d, A', f; substituting B into C then extends B's body `e` with `d`, `A'`, `f` by `+=`, giving `edA'f`, whose symbols are e, d, A, ', f | the spliced alternative has the symbols of the body followed by the symbols of the tail: e, d, A', f | not executed | LegacyRecursion.PrimeSplitExample | LegacyRecursion.SpliceSymbols |
