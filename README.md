# pyfsa in Dafny

This project is a Dafny model of pyfsa, a small toolkit that turns regular expressions into
nondeterministic finite automata (NFAs) and runs automata on words. It covers:

- **The regex front end** (`scanner/thompson.py`). `format_regex` inserts the explicit `.`
  concatenation operator. `convert_to_postfix` is a shunting-yard converter for `*`, `.` and `|`.
- **The Thompson fragment builders.** There are four: symbol, concatenation, union and closure.
  `scanner/thompson.py` and `fa.py` contain the same four.
- **fa.py's `State` graph and `NFA` class.** This covers the epsilon closures and `accepts`.
- **finite_automaton.py's table-driven automata.** This covers the DFA walker, the NFA with its
  work-list epsilon closures and predecessor map, and the constructor defaults.
- **The postfix evaluator** `create_nfa` of `scanner.py`.

Modules and files:

| file | module | models |
|---|---|---|
| `wrappers.dfy` | `Wrappers` | `Result`/`Option`, and the Python exceptions the code can raise |
| `regex.dfy` | `Regex` | `format_regex`, `should_concatenate` |
| `postfix.dfy` | `Postfix` | `convert_to_postfix`, as a function and as a loop over a mutable output and operator stack |
| `reach.dfy` | `Reach` | epsilon reachability, shared by both NFA flavours |
| `closures.dfy` | `Closures` | the work-list closure fixpoint, corrected and as written |
| `simulation.dfy` | `Simulation` | the set-of-states simulation both `accepts` methods perform, and the language it should decide |
| `table.dfy` | `TableAutomata` | finite_automaton.py |
| `arena.dfy` | `StateGraph` | `State`: every state lives in one arena (class `Arena`) and is addressed by index |
| `thompson.dfy` | `Thompson` | the four fragment builders, as methods that append states and edges to the arena |
| `scanner.dfy` | `Scanner` | `create_nfa` |
| `nfa.dfy` | `ArenaNfa` | fa.py's `NFA`: the constructor with its closures, `accepts`, and the recursive `get_epsilon_closure` |

A fragment (`Thompson.Fragment`) is the NFA object a builder returns. It holds the states, the
alphabet, the initial state and the accepting states. The states are indices into the arena.
`Thompson.Shape` is the invariant the builders keep:

- exactly one accepting state, with no outgoing edges;
- no edge leaving the fragment.

Closures are keyed by state (arena index), not by label.

## Model

| member | source | states |
|---|---|---|
| Regex.FormatRegex | scanner/thompson.py:38-39 | a non-empty regex keeps its first character in first place |
| Regex.FormatRegexIsDotPadded | scanner/thompson.py:38-39 | the output is the input with zero or one `.` after each character except the last |
| Regex.FormatRegexRoundTrip | scanner/thompson.py:38-39 | deleting every `.` from the output of a dot-free regex gives the regex back |
| Regex.FormatRegexDots | scanner/thompson.py:35-39 | every inserted `.` sits between two characters that `should_concatenate` accepts, and every such adjacent pair gets one |
| Regex.FormatRegexNeverAfterOpenOrBar | scanner/thompson.py:35-36 | no `.` follows `(` or `\|`, and none precedes `)`, `\|` or `*` |
| Regex.FormatRegexShortUnchanged | scanner/thompson.py:38 | the empty regex and one-character regexes come back unchanged |
| Regex.FormatRegexExampleAB | test/test_thompson.py:8 | `ab` becomes `a.b` for any two literals |
| Regex.FormatRegexExampleStarGroup | test/test_thompson.py:8 | `a(a\|b)*b` becomes `a.(a\|b)*.b` for any two literals |
| Regex.FormatRegexExampleTrailingStar | test/test_thompson.py:8 | `a(b\|c)*` becomes `a.(b\|c)*` for any three literals |
| Postfix.ConvertToPostfix | scanner/thompson.py:42-87 | the loop's result is the functional converter's; it fails exactly on a `)` with no open `(`, and the literals come out in input order |
| Postfix.ToPostfixMeaning | scanner/thompson.py:60-87 | error iff an unmatched `)` occurs; otherwise the literals keep their order, no `)` is output, one `(` is output per unclosed `(`, and every other character is output exactly once |
| Postfix.ToPostfixBalanced | scanner/thompson.py:63-85 | for balanced input the conversion succeeds, and the output is a permutation of the input's non-parenthesis characters with the literals in order |
| Postfix.ScanError | scanner/thompson.py:68-70 | the scan fails iff some `)` closes more parentheses than were opened before it |
| Postfix.StepFacts | scanner/thompson.py:63-83 | one token fails iff it is `)` at depth 0, and otherwise keeps the scan invariant (operator stack, `(` count, literals in order, the other characters exactly once) |
| Postfix.PopToLParenFacts | scanner/thompson.py:68-75 | the `)` branch fails iff no `(` is on the stack, and otherwise removes one `(` and moves only operators to the output |
| Postfix.PushOperatorFacts | scanner/thompson.py:76-83 | the operator branch keeps every `(` on the stack, moves only operators to the output and adds the token once |
| Postfix.PushOperatorStack | scanner/thompson.py:13-19 | an operator never pops a `(`, because `(` has the highest precedence number |
| Postfix.ToPostfixExampleConcatenations | test/test_thompson.py:16 | `a.a.b` becomes `aa.b.` (equal precedence pops: left associative) |
| Postfix.ToPostfixExampleAlternation | test/test_thompson.py:17 | `a\|b` becomes `ab\|` |
| Postfix.ToPostfixExampleClosureBindsTighter | test/test_thompson.py:18 | `a\|b*` becomes `ab*\|` |
| Postfix.ToPostfixExampleGroup | test/test_thompson.py:20 | `a.(a\|b)*.b` becomes `aab\|*.b.` |
| Reach.ClosureUnfolds | finite_automaton.py:148-151 | the exact closure of a state is the state plus the closures of its epsilon targets, so the update at line 151 leaves it unchanged |
| Reach.ClosedIsComplete | finite_automaton.py:144-152 | a reflexive closure map that contains its targets' closures contains every state reachable by epsilon edges |
| Reach.ReachesWithin | finite_automaton.py:147-148 | a set of states no epsilon edge leaves contains everything reachable from it |
| Closures.EpsilonClosures | finite_automaton.py:138-154 | with predecessors re-enqueued, the work-list loop ends and yields exactly the reflexive-transitive epsilon reachability of every state |
| Closures.Grow | finite_automaton.py:145-152 | one iteration keeps the loop invariant: closures hold only reachable states, and a state whose closure may be stale is on the work list |
| Closures.GrowShrinks | finite_automaton.py:150-151 | a changing update strictly shrinks the set of (state, reachable state) pairs still missing, so the loop terminates |
| Closures.EpsilonClosuresAsWritten | finite_automaton.py:138-154 | the loop as written is one sweep in pop order; each closure is reflexive and holds only reachable states |
| Closures.SweepFacts | finite_automaton.py:148-151 | the updates only grow closures, since `update` is used and nothing is replaced, and only add reachable states |
| Closures.SweepHoldsTargets | finite_automaton.py:146-151 | a popped state's closure takes in the closures of its epsilon targets, which hold those targets, so after the sweep it holds every epsilon target of every popped state |
| Closures.EnumerationCovers | finite_automaton.py:144-145 | popping each state of the work list once, as many times as there are states, visits every state |
| Closures.SweepFromInitial | finite_automaton.py:140-152 | a sweep from the singleton closures leaves every closure reflexive and sound; in a pop order that lists every state, each closure holds its state's epsilon targets; and if the result is closed under epsilon edges, it is exact |
| Closures.SweepMissesChain | finite_automaton.py:152 | on the chain 0 → 1 → 2, popped in the order 0, 1, 2, state 0 reaches 2, yet 2 is missing from its closure |
| Simulation.Step | finite_automaton.py:133-134 | a step succeeds iff every current state has a closure, and otherwise raises KeyError |
| Simulation.RunMeaning | fa.py:74-81 | with exact closures on a closed automaton, the closure of the state set reached on w holds exactly the states some start state derives w into |
| Simulation.AcceptsIsLanguage | fa.py:74-81 | acceptance with a final closure is membership in the automaton's language |
| Simulation.AcceptsAsWrittenSound | fa.py:74-81 | acceptance as written never raises on a well-formed automaton and accepts only words of the language; `accepts("")` holds iff the initial state is accepting |
| Simulation.RunEmpty | fa.py:77-79 | once the current set is empty it stays empty |
| TableAutomata.NewAutomaton | finite_automaton.py:51-55 | each `None` argument becomes an empty set or dict, and every other argument is stored as given |
| TableAutomata.DfaRunIsPath | finite_automaton.py:79-86 | the walk from q on w ends in r iff a path of table transitions spells w from q to r |
| TableAutomata.DfaRunDead | finite_automaton.py:82-84 | a missing transition (`None`) ends the walk for good |
| TableAutomata.DfaRunAppend | finite_automaton.py:81-84 | the walk on u + v is the walk on v from where u ends |
| TableAutomata.DfaAccepts | finite_automaton.py:77-86 | the loop with its `break` accepts iff the word spells a path from the start state to an accepting state |
| TableAutomata.DfaTestAccepts | test/test_finite_automaton.py:30-37 | the test DFA accepts `new` and `not` |
| TableAutomata.DfaTestRejects | test/test_finite_automaton.py:30-37 | the test DFA rejects `nwt`, `anew` and `notnot` |
| TableAutomata.RecordPredecessor | finite_automaton.py:160-162 | after the inner loop, k is a predecessor of exactly its epsilon targets, in addition to what was recorded before |
| TableAutomata.EpsilonPredecessors | finite_automaton.py:156-164 | k is in `preds[s]` iff s is an epsilon (`""`) target of k |
| TableAutomata.NewNfa | finite_automaton.py:120-127 | the constructor stores the defaulted fields; it raises TypeError when `states` is None, and KeyError exactly when an epsilon target of a listed state is not listed; otherwise the closures are one sweep of the work list as written, in some pop order that lists every state once, so each is reflexive and holds only reachable states |
| TableAutomata.NewNfaCorrected | finite_automaton.py:120-127 | the same fields and errors, with the corrected work list: every listed state gets its exact epsilon closure |
| TableAutomata.NfaAccepts | finite_automaton.py:129-136 | the loop computes the acceptance function; on a well-formed NFA that is membership in its language |
| TableAutomata.NfaAcceptsAsWrittenSound | finite_automaton.py:129-136 | `accepts` as written, on a well-formed NFA, raises nothing and accepts only words of the NFA's language; it accepts the empty word exactly when the start state is accepting |
| TableAutomata.TestNfaClosuresExact | test/test_finite_automaton.py:44-52 | any exact closure map of the test NFA, which is what the corrected constructor computes, is s0 ↦ {s0, s1} and every other state ↦ itself |
| TableAutomata.TestNfaSweep | finite_automaton.py:138-154 | for the test NFA, the single sweep of the constructor as written gives those same closures, in every pop order of the set |
| TableAutomata.TestNfaConstructed | test/test_finite_automaton.py:44-52 | the constructor as written, called with the test's arguments, builds the test NFA with those closures |
| TableAutomata.TestNfaAccepts | test/test_finite_automaton.py:44-52 | the test NFA with those closures accepts `ab` and `aab`, both with `accepts` as written and with the final closure |
| TableAutomata.TestNfaRejects | test/test_finite_automaton.py:44-52 | the test NFA with those closures rejects `aba`, `abab`, `aabaab` and `test`, both with `accepts` as written and with the final closure |
| TableAutomata.NoFinalClosureRejects | finite_automaton.py:136 | with a single epsilon edge from the start to the accepting state, the empty word is in the language and is accepted with the final closure, but as written it is rejected |
| StateGraph.Arena.constructor | fa.py:13-18 | an empty arena |
| StateGraph.Arena.NewState | fa.py:14-18 | a new state at the next index, with the given label, no symbol transitions and the given epsilon list |
| StateGraph.Arena.AddTransition | fa.py:24-25 | t joins the targets of the symbol on s; every other symbol and state is unchanged |
| StateGraph.Arena.AddEpsilonTransition | fa.py:27-28 | exactly one target is appended at the end of the epsilon list of s; the prefix and other states are untouched |
| StateGraph.Arena.AddEpsilonTransitions | fa.py:30-31 | the given list is appended in order; the prefix and other states are untouched |
| Thompson.BuildSymbol | scanner/thompson.py:90-95 | two new states with one c-transition from initial to accepting, alphabet {c}, one accepting state; the result is shaped |
| Thompson.BuildConcatenation | scanner/thompson.py:98-105 | initial is the first fragment's, accepting is the second's, states and alphabets are united; each accepting state of the first gains an epsilon edge to the second's initial state |
| Thompson.ConcatenationShape | scanner/thompson.py:98-105 | concatenating two disjoint shaped fragments gives a shaped fragment |
| Thompson.ZipToAccepting | scanner/thompson.py:113-115 | each state the zip visits gains one epsilon edge to the new accepting state per visit; every other state is unchanged |
| Thompson.BuildUnion | scanner/thompson.py:108-120 | two new states; the new initial has epsilon edges to both initials, in order; the new accepting state is the only accepting state |
| Thompson.UnionShape | scanner/thompson.py:108-120 | the union of two shaped fragments is shaped |
| Thompson.BuildClosure | scanner/thompson.py:123-133 | two new states; the new initial's epsilon list is [source initial, new accepting]; each source accepting state gains those two edges in that order; the new accepting state is the only accepting state |
| Thompson.ClosureShape | scanner/thompson.py:123-133 | the closure of a shaped fragment is shaped |
| Scanner.Apply | scanner.py:8-12 | a token pops as many fragments as its arity and pushes one; the fragments below its operands stay in place |
| Scanner.PushSymbol | scanner.py:11-12 | a literal c pushes the fragment with the two new states n and n + 1 (n the arena's old size), alphabet {c}, start n and accepting {n + 1}; the rest of the stack is kept, and the arena gains exactly the two states and the c-edge (`SymbolBuilt`) |
| Scanner.ConcatenateTop | scanner.py:8 | `?` replaces the top two fragments by one whose start is the earlier-pushed fragment's start and whose accepting states are the later one's, over both state sets and alphabets; only the earlier fragment's accepting states gain an epsilon edge, to the later one's start (`ConcatenationBuilt`); the stack below is kept |
| Scanner.UniteTop | scanner.py:9 | `\|` replaces the top two fragments by one over both and two new states n, n + 1; n's epsilon list is the earlier fragment's start, then the later one's; both accepting states lead to n + 1, the only accepting state (`UnionBuilt`); the stack below is kept |
| Scanner.Kleene | scanner.py:10 | `*` replaces the top fragment by its closure: new accepting state n, new start n + 1 with epsilon list [old start, n], and the old accepting states gain the same two edges (`ClosureBuilt`); the stack below is kept |
| Scanner.ConcatenationStep | scanner.py:8 | the concatenation of the top two fragments, the earlier-pushed first, keeps the stack invariant: every fragment shaped, disjoint from the others, no edge into older fragments |
| Scanner.UnionStep | scanner.py:9 | the union of the top two fragments, the earlier-pushed first, keeps the stack invariant |
| Scanner.ClosureStep | scanner.py:10 | the closure of the top fragment keeps the stack invariant |
| Scanner.Step | scanner.py:7-12 | one token changes the arena and the stack exactly as the fold step `Apply` says, keeps the stack invariant and adds a literal to the alphabets |
| Scanner.EvaluateHeight | scanner.py:7-12 | the fold over the tokens succeeds iff every operator finds its operands, and then the stack holds `Height` fragments |
| Scanner.CreatedSucceeds | scanner.py:4-14 | create_nfa's fold yields a fragment iff every operator finds its operands and at least one fragment is left |
| Scanner.CreatedFails | scanner.py:8-14 | a fold stopped by a short stack makes create_nfa raise IndexError |
| Scanner.PushAll | scanner.py:7-12 | the loop stops with IndexError exactly when the fold does, and otherwise leaves the fold's arena and stack, whose alphabets are the literals of the input |
| Scanner.CreateNfa | scanner.py:4-14 | the result and the arena are exactly those of the fold `Created`; the result exists iff every operator finds its operands and a fragment is left, and otherwise is IndexError; the result is shaped, and its alphabet is the set of literals when one fragment is left |
| Scanner.ConcatenationOrder | scanner.py:8 | `ab?` on an empty arena gives the fragment from state 0 to state 3, with the one epsilon edge 1 → 2: a comes first |
| Scanner.UnionOrder | scanner.py:9 | `ab\|` on an empty arena gives the fragment from state 4 to state 5, whose start's epsilon list is [0, 2]: a's start, then b's |
| Scanner.CreateNfaTestInputs | test/test_scanner.py:8 | `a`, `b`, `ab?` and `ab\|` each give every operator its operands and leave one fragment, and their literals are {a}, {b}, {a, b} and {a, b}; by `Scanner.CreateNfa`'s ensures these are the alphabets of the fragments it returns |
| ArenaNfa.NewNfa | fa.py:38-45 | the arguments are stored, and every state's closure is exactly the set of states reachable from it by epsilon edges |
| ArenaNfa.ClosureHoldsTargets | fa.py:33-35 | a closure contains its state and every direct epsilon target |
| ArenaNfa.FragmentWellFormed | fa.py:38-45 | the NFA of a shaped fragment has exact closures and no edge leaving its states |
| ArenaNfa.Accepts | fa.py:74-81 | the loop computes acceptance with the final closure; on a well-formed NFA that is membership in its language |
| ArenaNfa.FragmentAcceptsLanguage | fa.py:74-81 | every fragment the builders make accepts exactly its language |
| ArenaNfa.BuildStarOfA | fa.py:120-130 | the closure of the symbol `a` built on an empty arena has exactly the edges the counterexample uses |
| ArenaNfa.StarRejectsA | fa.py:81 | the NFA of `a*` rejects `a` as written; `a` is in its language and the corrected acceptance accepts it |
| ArenaNfa.RecursiveClosure | fa.py:33-35 | the recursion only ever raises RecursionError; a result contains the state and its direct targets |
| ArenaNfa.RecursiveClosureExact | fa.py:33-35 | a result the recursion does return is exactly the epsilon-reachable set |
| ArenaNfa.CycleExhaustsRecursion | fa.py:33-35 | two states with epsilon edges to each other exhaust any recursion depth |
| ArenaNfa.BuildStarOfStarOfA | fa.py:120-130 | closing the `a*` fragment again links its old accepting state back to its old initial state |
| ArenaNfa.StarOfStarRecursion | fa.py:33-35 | in the NFA of `a**` the closure of state 2 raises RecursionError at every depth |

## Left out

- `NFA.from_json_file` (fa.py:53-72) is not modelled. It reads a file, parses JSON and prints, so it is all I/O. Automata are built directly instead.
- The test that loads `nfa.json` (test/test_fa.py) has no model. The file it reads is not part of this model.
- The `__repr__` methods and label formatting (fa.py:20-22, 47-51) are left out. They are cosmetic. Labels are kept as data in `Arena.labels`.
- The `ABC` base class, `abstractmethod` and `super().__init__` (finite_automaton.py:1, 57-61, 126) are not modelled as inheritance. Each automaton kind has its own operations built on `NewAutomaton`.
- The table-driven `accepts` and closures use `string` states. The arena NFA uses `nat` indices.
- fa.py:84 keys closures by label, but labels are not unique, so closures collide. Every union gives its new states `initial_union` and `accepting_union`, and every closure gives its new states `accepting_closure` and `initial_closure` (fa.py:121-122). A repeated literal repeats `initial_a` and `accepting_a`, as in `aa?` (fa.py:88). The model keys them by state (arena index) and does not model the collision.
- scanner.py cannot run as written. finite_automaton.py defines no `NFA` class at all, so `from finite_automaton import NFA` (scanner.py:1) already fails on import. The `NFA.from_concatenation`, `from_union`, `from_kleene_closure` and `from_symbol` it calls are not defined anywhere either. `Scanner.CreateNfa` uses the arena builders of `Thompson` in their place.
- scanner.py uses `?` as its concatenation token, while `convert_to_postfix` writes `.`. The model keeps `?`, as the code does.
- Python iterates sets in an unspecified order. Where the result depends on that order, the order is a parameter:
  - the zip in `build_union_nfa`;
  - the pop order of the work list.
- `Thompson.BuildUnion` follows the code's zip. It pairs the two accepting sets and stops at the shorter one. For shaped fragments (one accepting state each) every accepting state gains the edge. The model does not claim anything for unshaped operands.
- `Scanner.CreateNfa` and the arena builders: when building an `NFA` object, the Python builders call the recursive `get_epsilon_closure` on every state. The model does not run that recursion during construction. `ArenaNfa.NewNfa` computes closures with the work list, and the recursion is modelled separately (`ArenaNfa.RecursiveClosure`).
- `ArenaNfa.RecursiveClosure` models the interpreter's recursion limit as a depth parameter. It does not fix Python's actual limit.
- `convert_to_postfix` follows the code, not the usual description of the algorithm. A `(` left open at the end is flushed into the output instead of being reported as an error.
- `Scanner.CreateNfa` states the alphabet exactly only when one fragment is left. When more are left, it states only that the alphabet is contained in the literals, because the extra fragments' alphabets are dropped.
- `Closures.EpsilonClosures` differs from finite_automaton.py in two places, not one. It re-enqueues the predecessors (line 152). It also grows a closure only when the targets' closures add a state (line 150 tests `!=`). The subset test was chosen because it makes termination easy to prove: every update that passes it strictly shrinks `Closures.Missing`, the set of (state, reachable state) pairs not yet in a closure. If the loop with `!=` and re-enqueueing stops, it leaves the same closures. Both loops keep the same invariant, and a map that is reflexive, sound and closed under the targets' closures is the exact reachability closure (`Reach.ClosedIsComplete`). The model does not prove that the `!=` loop with re-enqueueing terminates.
- `StateGraph.Arena.NewState` has no `transitions` argument. `State(label, transitions, ...)` (fa.py:14-17) may be given a ready-made transitions dict. No builder passes one, so every new state starts with no symbol transitions.
- No lemma relates the language of a built fragment to the languages of its operands. These laws are: concatenation, union, and Kleene star of the operand languages. `ArenaNfa.FragmentAcceptsLanguage` states only that acceptance is the fragment's own language. The builders and `Scanner.CreateNfa` are specified by the exact states and edges they add.
- The postfix test `a.(a|b)` → `aab|.` (test/test_thompson.py:19) has no lemma of its own. Its steps are a prefix of `Postfix.ToPostfixExampleGroup`.

## Findings

| source | as written | input that shows it | evidently intended | confidence | as-written member | corrected member |
|---|---|---|---|---|---|---|
| finite_automaton.py:152 | `work_list.union(...)` builds a new set and throws it away, so predecessors are never re-enqueued | epsilon chain 0 → 1 → 2 with 0 popped first: closure(0) ends as {0, 1} | put the predecessors back on the work list (`update`), so every closure reaches the fixpoint; the corrected loop also tests at line 150 whether the update adds a state instead of whether it differs, which gives a termination measure (see `Closures.EpsilonClosures` under Left out) | not executed | Closures.SweepMissesChain | Closures.EpsilonClosures |
| finite_automaton.py:136 | acceptance tests the current set without a final epsilon closure | epsilon edge s0 → s1, with s1 accepting, on the empty word: rejected | close the final set before the test | not executed | TableAutomata.NoFinalClosureRejects | TableAutomata.NfaAccepts |
| fa.py:81 | acceptance tests the current set without a final epsilon closure | the NFA `build_closure_nfa(build_symbol_nfa("a"))` on `a`: rejected | close the final set before the test | not executed | ArenaNfa.StarRejectsA | ArenaNfa.Accepts |
| fa.py:33-35 | `get_epsilon_closure` recurses into every epsilon target with no visited set | `a**`: the second closure adds edge 2 → 3 next to 3 → 2, and the closure of 2 raises RecursionError | reachability closure, which a work list computes | not executed | ArenaNfa.StarOfStarRecursion | ArenaNfa.NewNfa |
