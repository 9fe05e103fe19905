# Proved cores of the Foster toolchain

This project models six cores of the Foster compiler, runtime and host in Dafny 4.11 and proves
what they are for. `dafny verify dfyconfig.toml` checks everything.

- **Dispatch keys.** A dispatch key (`trees.dfy`) is a generic or a node whose head decides
  constructor, nominal identity, parameter modes and child count; intersections are the unordered
  nodes. `shapes.dfy` defines "the same key up to the order of intersection members" as equality of
  shapes in which an intersection holds a *multiset*. `canonicalization.dfy` models the pruned
  breadth search of `canonical` and proves it against an independent definition: the least
  first-use-numbered form over all orderings. Equal canonical forms are then proved to mean one
  injective renaming of generics across the whole sequence plus reorderings (`Equivalent`).
  `matching.dfy` models the backtracking matcher with its task stack, bindings and continuation and
  proves it decides the existence of a substitution (`Instantiates`). `dispatch_laws.dfy` connects
  the two, and `types.dfy` and `method_keys.dfy` lift the results
  to checked types and to declared methods. `agreement.dfy` says on the types themselves, without
  keys, when two of them are one for dispatch, and proves that keys are equal exactly then.
- **Positions and the lexer.** `grammar.dfy` is the lexical grammar without scanning: which stretch of
  a text is a token of which kind, and what may be skipped. `scanning.dfy` states what each scanner
  recognizes at an index, and is proved to find exactly what the grammar has there; `lexer.dfy` is
  the scanner class with its index, line, column and byte counters, proved against it; `lexer_laws.dfy`
  proves what callers rely on: interpolations lex exactly the text before their closing mark, and
  tokens tile the source. `positions.dfy` proves that positions compose, that byte widths are those of
  the UTF-8 encoding, and that diagnostic byte offsets invert positions.
- **Failures and cleanup** (`execution.dfy`). Well-bracketed traces of failures, cancellation polls,
  cleanup scopes and nested embedded executions.
- **Remote actors.** `remote.dfy` is the locked request table; `actor.dfy` is the whole protocol as
  a state machine in which every lock section, channel operation and cancellation callback is one
  step of some thread. The theorems hold in every state of every run. `actor_laws.dfy` adds laws that
  name the steps: why the control ended, that the protocol is never stuck, and that every schedule
  without new calls comes to rest.
- **Callbacks and foreign resources.** `callbacks.dfy` is the bounded queue behind a callback token.
  `foreign.dfy` is the ownership graph of foreign resources under arbitrary, re-entrant native steps;
  `foreign_host.dfy` is the host that updates its registries in place, each operation proved to be one step.
- **Graph cores.** `cleanup_types.dfy` (depth-first search over possibly cyclic types) and
  `control_flow.dfy` (branch lowering that must mean first match).

Imperative code is modelled imperatively: methods with loops and classes whose fields are updated,
each tied to a specification function or a property; the lemmas are about those specifications.

A note on branches without arms: the graph constructor, taken alone, sends an empty list of arms to
its exit even when the branch is declared exhaustive. Checked programs never contain one (the
checker rejects it, compiler/src/typecheck/expressions.rs:455-456 and 926-927), and every exhaustive
branch they do contain ends in `Unmatched` when nothing matches.

## Model

| member | source | states |
|---|---|---|
| Trees.CompareTotal | compiler/src/types.rs:61-84 | the derived order on keys is total, and equal exactly on equal keys |
| Trees.CompareTransitive | compiler/src/types.rs:61-84 | the derived order on keys is transitive |
| Trees.SameHeadComparesChildren | compiler/src/dispatch.rs:8-23 | keys with one head compare as their child vectors do, the law the search relies on |
| Trees.SameHeadMeaning | compiler/src/dispatch.rs:17-22 | masking children and comparing decides exactly equal heads and equal child counts |
| Trees.VecAppend | compiler/src/dispatch.rs:91-98 | extending two prefixes of one length compares the prefixes first, so a larger prefix can be discarded at once |
| Trees.EarlierConstructor | compiler/src/types.rs:61-84 | keys of different constructors compare by constructor, whatever they hold |
| Trees.DeclarationOrder | compiler/src/types.rs:61-84 | constructors come in the order of their declaration |
| Trees.NominalOrder | compiler/src/types.rs:80-82 | records and variants compare by identity, then by arguments |
| Trees.CallableOrder | compiler/src/types.rs:79-79 | callables compare pair by pair of mode and parameter, borrowed before consumed and shorter lists first, then by result |
| Shapes.SubstSame | compiler/src/dispatch.rs:151-158 | substitution respects sameness of keys and of bound values, so which of several same representatives is kept does not matter |
| Numbering.EquivalentReflexive | compiler/src/dispatch.rs:1-4 | a signature is equal, up to renaming and reordering, to itself and to any reordering of its intersection members |
| Numbering.EquivalentSymmetric | compiler/src/dispatch.rs:1-4 | signatures equal up to renaming and reordering: symmetric |
| Numbering.EquivalentTransitive | compiler/src/dispatch.rs:1-4 | signatures equal up to renaming and reordering: transitive |
| Numbering.NumberIgnoresRenamingAll | compiler/src/dispatch.rs:33-45 | first-use numbering gives one result for a sequence and for any injective renaming of it |
| Numbering.NumberRenamesAll | compiler/src/dispatch.rs:33-45 | first-use numbering is itself a renaming by the name map it ends with |
| Numbering.NumberDenseAll | compiler/src/dispatch.rs:33-45 | the name map stays injective onto an initial segment of the numbers |
| Canonicalization.Offer | compiler/src/dispatch.rs:91-104 | dropping larger prefixes, restarting on a smaller one and deduplicating leaves exactly the candidates with the least prefix |
| Canonicalization.StepCovers | compiler/src/dispatch.rs:81-104 | skipping members equal to an earlier one and keeping only least forms loses no ordering that could still win |
| Canonicalization.Extend | compiler/src/dispatch.rs:81-106 | expanding one state offers only reachable states, at least one, and still covers every ordering the state stood for |
| Canonicalization.Round | compiler/src/dispatch.rs:78-109 | one round keeps the frontier: reachable states with one common least prefix that together cover every ordering |
| Canonicalization.FrontierIsLeast | compiler/src/dispatch.rs:108-113 | after the last round a survivor is exactly a least form with its names |
| Canonicalization.SearchSequence | compiler/src/dispatch.rs:75-114 | returns all least forms of a list with their name maps, never none |
| Canonicalization.LeastIsUnique | compiler/src/dispatch.rs:91-113 | all survivors of a search share one form and differ in their name maps only |
| Canonicalization.SearchNode | compiler/src/dispatch.rs:61-71 | returns all least forms of one value with their name maps, never none |
| Canonicalization.LeastNode | compiler/src/dispatch.rs:61-71 | the least forms of a node are its head over the least forms of its children |
| Canonicalization.Renumber | compiler/src/dispatch.rs:33-45 | the walk that threads a mutable name map computes the first-use numbering |
| Canonicalization.RenumberAll | compiler/src/dispatch.rs:38-52 | the same for a list, left to right with one name map |
| Canonicalization.FixedOrder | compiler/src/dispatch.rs:46-53 | without intersections the only reordering of a sequence is the sequence itself |
| Canonicalization.Canonical | compiler/src/dispatch.rs:29-59 | the result is the least first-use-numbered form over all intersection orderings at every depth, on the fast path as well as by the search |
| Canonicalization.CanonicalIsEquivalent | compiler/src/dispatch.rs:27-59 | a canonical form is a renaming and reordering of what it was computed from, so multiplicity is kept |
| Canonicalization.CanonicalIsCompleteInvariant | compiler/src/dispatch.rs:1-59 | two sequences have one canonical form exactly when one injective renaming spanning the whole sequence, with reorderings of intersection members, turns one into the other |
| Canonicalization.CanonicalIgnoresOrder | compiler/src/dispatch.rs:1-59 | reordering intersection members at any depth never changes the canonical form |
| Canonicalization.CanonicalIsFixed | compiler/src/dispatch.rs:27-59 | a canonical form is its own canonical form |
| Matching.BindFirst | compiler/src/dispatch.rs:156-158 | binding a generic at its first occurrence to that very actual keeps every solution up to sameness |
| Matching.BoundGeneric | compiler/src/dispatch.rs:151-155 | a later occurrence is solvable exactly when the bound value and the new actual are the same key |
| Matching.TwinBranch | compiler/src/dispatch.rs:182-184 | a candidate equal to an earlier one leads to the same answer, so skipping it is harmless |
| Matching.SomeBranch | compiler/src/dispatch.rs:177-194 | a solution of an intersection pairing is a solution of one of its branches with the whole continuation |
| Matching.BranchLoad | compiler/src/dispatch.rs:181-193 | every branch is smaller in the termination measure |
| Matching.Solve | compiler/src/dispatch.rs:138-199 | terminates on every task stack and is true exactly when some substitution respecting the bindings solves all tasks |
| Matching.TryPartners | compiler/src/dispatch.rs:177-195 | trying each distinct candidate with the continuation finds a partner exactly when one exists |
| Matching.Matches | compiler/src/dispatch.rs:122-136 | true exactly when lengths agree and one substitution makes every pattern parameter the same key as its actual |
| DispatchLaws.MatchIgnoresOrder | compiler/src/dispatch.rs:122-199 | reordering intersections on either side never changes a match |
| DispatchLaws.MatchTransitive | compiler/src/dispatch.rs:122-199 | matching is transitive |
| DispatchLaws.MutualMatchIsEquivalence | compiler/src/dispatch.rs:1-199 | each of two signatures matches the other exactly when they are one signature up to renaming and reordering |
| DispatchLaws.IdentityIsMutualMatch | compiler/src/dispatch.rs:27-199 | canonical forms coincide exactly when each side matches the other |
| DispatchLaws.MatchSurvivesCanonical | compiler/src/types/dispatch.rs:5-40 | canonicalizing a pattern first never changes what it matches |
| DispatchLaws.MethodMatches | compiler/src/types/dispatch.rs:21-40 | a method key matches exactly when names and modes are equal and the types match |
| DispatchLaws.SameSlot | compiler/src/types/dispatch.rs:4-19 | canonical method keys are equal exactly when names and modes are equal and the types are one signature |
| Types.FirstUseIsNumber | compiler/src/types.rs:287-357 | numbering generic names while erasing is erasing by any code of the names and numbering afterwards |
| Types.KeyWithGenerics | compiler/src/types.rs:287-357 | the walk that threads the numbering map erases reference groups, effects, suspension and the erased flag |
| Types.KeysWithGenerics | compiler/src/types.rs:322-354 | the same for parameters, arguments and members, left to right with one numbering map |
| Types.DispatchTypeKey | compiler/src/types.rs:282-285 | the key is the canonical form of the erased type |
| Types.FirstUseIsErasure | compiler/src/types.rs:287-357 | numbering names while erasing is, up to renaming, erasing by any code of the names |
| Types.KeysIdentifyLists | compiler/src/types.rs:260-357 | two lists of types numbered by one map each have one canonical form exactly when their erasures agree up to one injective renaming across the list and intersection reordering |
| Types.KeysIdentifyTypes | compiler/src/types.rs:282-357 | the same for the keys of two types; the numbering made first does not matter |
| Agreement.AgreeIsSameShape | compiler/src/types.rs:287-357 | two types agree, up to the dropped fields, a renaming and the order of intersection members, exactly when their erasures are the same key |
| Agreement.KeysMeanAgreement | compiler/src/types.rs:260-357 | two lists of types have one canonical form exactly when one one-to-one renaming of generic names makes them agree, type by type |
| Agreement.KeyMeansAgreement | compiler/src/types.rs:282-357 | two types have one dispatch key exactly when some one-to-one renaming of generic names makes them agree; no two other constructors are ever confused |
| MethodKeys.MethodDispatchKey | compiler/src/types.rs:260-280 | a method key drops the receiver, keeps the modes, numbers generics by one map across all parameters and canonicalizes the sequence |
| MethodKeys.KeysIdentifyMethods | compiler/src/types.rs:260-280 | two declarations have one method key exactly when names and modes agree and their erased parameter sequences are one signature up to renaming and reordering |
| MethodKeys.KeysMeanSameMethod | compiler/src/types.rs:260-280 | two declarations have one method key exactly when names are equal and one renaming makes modes and types of everything behind their first parameters agree |
| CleanupTypes.Visit | compiler/src/types.rs:194-227 | with a shared visited set and revisits answering false: a positive answer has a path to a cleanup type, a negative one has explored a closed part without any |
| CleanupTypes.VisitAny | compiler/src/types.rs:201-224 | stops at the first component with a path to cleanup; a negative answer has explored all of them |
| CleanupTypes.HasCleanup | compiler/src/types.rs:192-229 | terminates on cyclic types and is true exactly when a type that calls for cleanup is reachable |
| CleanupTypes.NeedingIsFixed | compiler/src/types.rs:198-226 | the types that reach cleanup satisfy the rule of each constructor: generics, callables, remotes and futures always, references and scalars never, declared types by deinitializer, arguments or fields |
| CleanupTypes.CleanupIsLeastNeed | compiler/src/types.rs:194-227 | and they are the least such set, so a cycle by itself needs none |
| ControlFlow.SummarizeArm | compiler/src/control_flow.rs:9-39 | an arm yields a value or falls through exactly when some choice of guards reaches its end, and which of both by its last statement |
| ControlFlow.EndNeedsNoJump | compiler/src/control_flow.rs:18-30 | the end is reachable exactly when the block has no unguarded return, break or continue |
| ControlFlow.NewGraph | compiler/src/control_flow.rs:67-98 | the nodes, entry and exit of the branch graph |
| ControlFlow.LaidOutForward | compiler/src/control_flow.rs:68-98 | every edge leads strictly forward to an existing node |
| ControlFlow.WalkIsFirstMatch | compiler/src/control_flow.rs:68-98 | under any test outcomes the walk reaches the body of the first matching arm, else the end chosen for no match |
| ControlFlow.UnmatchedNeedsArms | compiler/src/control_flow.rs:55-97 | when nothing matches, an exhaustive branch with arms ends unmatched; the constructor sends one without arms to its exit |
| Positions.PosBytes | compiler/src/lexer.rs:748-759 | the byte index is the UTF-8 length of the characters passed |
| Positions.WidthIsEncodedLength | compiler/src/lexer.rs:751-751 | the width is the length of the UTF-8 encoding (section 3 of RFC 3629), which decodes back and is self-delimiting |
| Positions.BytesAreEncoded | compiler/src/lexer.rs:748-759 | the bytes counted for a text are the length of its encoding |
| Positions.PosCompose | compiler/src/lexer.rs:473-483 | scanning a suffix from its own origin and shifting is scanning on; columns shift on the first line only |
| Positions.PosPrefix | compiler/src/lexer.rs:748-759 | only the characters passed decide a position |
| Positions.ByteOffsetInvertsPosition | compiler/src/diagnostic.rs:168-180 | at every character, at the end and after a trailing newline, line and column lead back to the scanner's byte index |
| Positions.ByteOffsetIsOfCharacter | compiler/src/diagnostic.rs:168-180 | for any line and column the offset is that of a character or of the end: columns run on past their line and stop at the end |
| Positions.LinesEndAtNewlines | compiler/src/diagnostic.rs:169-173 | the first lines end where the scanner starts the next one |
| LexerLaws.InterpolationIsPrefix | compiler/src/lexer.rs:99-102 | a successful interpolation has exactly the tokens of the text before its closing mark, for any nesting |
| LexerLaws.FirstMarkOutsideBraces | compiler/src/lexer.rs:129-141 | it stops outside any braces, and every earlier closing brace before a percent sign is inside some |
| LexerLaws.ScanLocal | compiler/src/lexer.rs:142-396 | what a scan recognizes before a closing mark does not depend on the text behind the mark |
| LexerLaws.CounterBalances | compiler/src/lexer.rs:645-677 | the depth counter ends a block comment exactly at its balanced end |
| LexerLaws.TokensTile | compiler/src/lexer.rs:129-412 | on success the tokens are nonempty except the final one, and between them stand only spaces, tabs, carriage returns and plain comments |
| Lexers.Lexer.Advance | compiler/src/lexer.rs:748-759 | line, column and byte index always describe the character index |
| Lexers.Lexer.Number | compiler/src/lexer.rs:414-459 | boundaries and errors of integer and float literals, the range of integers included |
| Grammar.ScanIsGrammar | compiler/src/lexer.rs:142-396 | at every place the scanner recognizes exactly the token, up to its end, or the filler the grammar has there, and fails exactly where it has neither |
| Grammar.TokensAreGrammar | compiler/src/lexer.rs:129-412 | the tokens of a text are tokens of the grammar at their places |
| Grammar.FaultIsReal | compiler/src/lexer.rs:129-404 | a text that does not lex has a place, reached by tokens and filler, at which nothing of the grammar stands, and the error is that of this place |
| Grammar.OperatorIsLongest | compiler/src/lexer.rs:180-395 | an operator takes the longest of the spellings of the language that stands there, and there is an error exactly when none does |
| Grammar.NumberIsLongest | compiler/src/lexer.rs:414-459 | a number is the longest of digits, point and digits, exponent; refused exactly for an exponent without digits or an integer beyond 64 bits |
| Grammar.DecimalRoundTrip | compiler/src/lexer.rs:448-451 | an integer written in decimal is read back |
| Grammar.WordIsRun | compiler/src/lexer.rs:730-737 | a word ends at the first character that is no letter, digit, underscore or question mark |
| Grammar.BodyIsScanned | compiler/src/lexer.rs:522-564 | a string of plain characters and the five escapes is scanned with the content it stands for |
| Grammar.StringStop | compiler/src/lexer.rs:522-564 | a string that is refused stops at the end of its line or text, or at a backslash before nothing or before an unknown letter |
| Grammar.CodePointIsScanned | compiler/src/lexer.rs:566-607 | a code-point literal is one character or one escape between single quotes |
| Grammar.CodePointFault | compiler/src/lexer.rs:569-599 | why a code-point literal is refused |
| Grammar.BlockIsScanned | compiler/src/lexer.rs:645-677 | a block comment is scanned exactly when it is balanced, and documents its text without marks exactly when a star follows its opening |
| Grammar.PieceIsStep | compiler/src/lexer.rs:467-513 | each step inside a triple-quoted string takes one piece: doubled percent sign, substitution, name, escape or other character |
| Grammar.InteriorStop | compiler/src/lexer.rs:461-520 | a triple-quoted string ends at the first three quotes outside its pieces, or fails with the error of its substitution |
| Lexers.Lexer.String | compiler/src/lexer.rs:522-564 | content, boundaries and error positions of strings with escapes |
| Lexers.Lexer.CodePointLiteral | compiler/src/lexer.rs:566-607 | value, boundaries and errors of code-point literals |
| Lexers.Lexer.BlockComment | compiler/src/lexer.rs:645-677 | end, documentation and error position of nested block comments |
| Lexers.Lexer.LineComment | compiler/src/lexer.rs:156-166 | a documentation line gives a token, a plain one none, both up to the end of the line |
| Lexers.Lexer.Identifier | compiler/src/lexer.rs:679-737 | a word extends to the end of its longest run of word characters |
| Lexers.Lexer.SymbolName | compiler/src/lexer.rs:609-619 | a symbol is a colon and a word |
| Lexers.Lexer.Operator | compiler/src/lexer.rs:180-395 | operators take their longest spelling; any other character is an error where it stands |
| Lexers.Lexer.SkipSubstitution | compiler/src/lexer.rs:473-489 | the scan resumes exactly two characters behind the inner stop, and inner errors appear at their absolute line and column |
| Lexers.Lexer.TripleAdvance | compiler/src/lexer.rs:467-514 | one step inside a triple-quoted string, escapes and substitutions included |
| Lexers.Lexer.TripleQuoted | compiler/src/lexer.rs:461-520 | interior, boundaries and error positions of triple-quoted strings |
| Lexers.Lexer.ScanOne | compiler/src/lexer.rs:142-396 | each round of the main loop recognizes what the text holds at its index and ends behind it |
| Lexers.Lexer.LexUntil | compiler/src/lexer.rs:129-412 | terminates on every source and returns the tokens, or the error, at the positions the text gives them |
| Lexers.Lex | compiler/src/lexer.rs:95-97 | a new scanner over the whole source |
| Lexers.LexInterpolation | compiler/src/lexer.rs:99-102 | a new scanner that stops before the closing mark |
| Lexers.FaultPosition | compiler/src/lexer.rs:477-483 | an inner error shifted by the outer position is at its position in the whole text |
| Lexers.MarkPosition | compiler/src/lexer.rs:484-487 | the byte two past the inner end token is two characters past the closing mark's start |
| Lexers.InterpolationLexesPrefix | compiler/src/lexer.rs:95-102 | lexing an interpolation and lexing exactly the text before its mark return the same tokens, positions included |
| Lexers.RangeOnBoundaries | compiler/src/lexer.rs:142-412 | byte ranges are on character boundaries, and line and column lead back to their start |
| Lexers.RangesInOrder | compiler/src/lexer.rs:129-412 | byte ranges are nonempty but for the last, disjoint and in order |
| Lexers.LastRange | compiler/src/lexer.rs:405-411 | the last token is the empty end mark behind the last byte |
| Executions.Execution.Fail | runtime/src/host.rs:604-611 | the first failure is kept |
| Executions.Execution.PollCancellation | runtime/src/host.rs:639-654 | a poll raises nothing in a cleanup scope, else the embedder's cancellation, else the control's error |
| Executions.Execution.BeginCleanup | runtime/src/host.rs:663-668 | a scope sets the pending failure aside |
| Executions.Execution.EndCleanup | runtime/src/host.rs:670-678 | a scope restores the failure it set aside, else keeps its own |
| Executions.Execution.EmbeddedExecution | runtime/src/lib.rs:25-42 | an embedded execution reports its own first failure and leaves the outer one intact |
| Executions.Execution.Run | runtime/src/host.rs:604-678 | after any well-bracketed trace the pending failure is the initial one, else the first raised; scopes are restored |
| Executions.CleanupSeesNoCancellation | runtime/src/host.rs:639-654 | a cleanup trace ends without a failure exactly when nothing in it raises one itself: polls there raise nothing |
| Executions.NoFailureIsSilence | runtime/src/host.rs:604-678 | a trace leaves no failure exactly when no event raises at any depth of cleanup and no poll outside cleanup finds a cancellation |
| Executions.FailureHasAnOrigin | runtime/src/host.rs:604-678 | a trace leaves a failure exactly when one event raises this very message and nothing before it raises |
| Executions.OneReportEach | runtime/src/lib.rs:38-41 | every embedded execution reports once |
| Executions.CleanupKeepsOriginal | runtime/src/host.rs:663-678 | a cleanup scope never replaces an earlier failure, and its own first failure precedes later ones |
| Callbacks.SectionKeepsSound | host/src/callbacks.rs:67-204 | every lock section keeps the byte counter exact, the bounds, the empty closed queue and the order of accepted events |
| Callbacks.EveryRunIsSound | host/src/callbacks.rs:67-204 | so does every interleaving of producers, polls and releases |
| Callbacks.ClosedIsFinal | host/src/callbacks.rs:75-79 | after the release nothing is accepted, taken or discarded any more |
| Callbacks.TakenInOrder | host/src/callbacks.rs:111-127 | polls take accepted events in order, each at most once |
| Callbacks.Signal.Enqueue | host/src/callbacks.rs:190-204 | accepts exactly when open and within both limits, and reports success exactly then |
| Callbacks.Signal.Invoke | host/src/callbacks.rs:144-204 | signature mismatch, closed queue, liveness probe, bad packet and queued event |
| Callbacks.Signal.Poll | host/src/callbacks.rs:111-120 | takes the pending error, or the whole snapshot of the queue |
| Callbacks.Signal.TakeError | host/src/callbacks.rs:129-133 | takes the pending error and leaves the queue alone |
| Callbacks.Signal.Release | host/src/callbacks.rs:67-83 | refused while the handler runs, else closes and discards what was still queued |
| Remote.Control.Register | host/src/remote.rs:39-52 | a fresh identity for the callback, or the terminal error to run it with |
| Remote.Control.Complete | host/src/remote.rs:54-66 | wins exactly when the request was still pending, and then no one else can |
| Remote.Control.HasPending | host/src/remote.rs:68-75 | true exactly when some request is pending |
| Remote.Control.Terminate | host/src/remote.rs:85-97 | only the first end counts; it takes exactly the callbacks that were pending |
| Actor.StepKeepsOneOutcome | runtime/src/host.rs:755-829 | every step of every thread keeps one outcome owed or delivered for each call |
| Actor.StepKeepsWords | runtime/src/host.rs:717-929 | every step keeps each result word in exactly one place |
| Actor.StepKeepsPackets | runtime/src/host.rs:757-827 | every step keeps the packets sent in order among those used, in hand and queued |
| Actor.StepKeepsSound | runtime/src/host.rs:717-929 | every step of every thread keeps the whole protocol invariant |
| Actor.RunIsSound | runtime/src/host.rs:717-929 | every state of every interleaving satisfies the protocol invariant |
| Actor.AtMostOneOutcome | runtime/src/host.rs:757-829 | in every interleaving a response channel never receives two outcomes |
| Actor.ExactlyOneOutcome | runtime/src/host.rs:757-829 | once its request was processed or the control ended, and no callback or claim is on its way, it received exactly one |
| Actor.FinishedAnswersEveryCall | runtime/src/host.rs:757-908 | when the worker has finished every call has exactly one outcome, no callback being on its way any more |
| Actor.TerminalIsSticky | host/src/remote.rs:85-93 | the terminal error never changes |
| Actor.OneErrorForAll | host/src/remote.rs:38-97 | all cancelled and late calls, at any two moments of a run, receive the one terminal error |
| ActorLaws.EndHasCause | runtime/src/host.rs:765-767 | over every run: the control is shut down exactly when the owner let go first, and fails with a message exactly when settling a callback that failed with it came first |
| ActorLaws.SettledIsReturned | runtime/src/host.rs:763-767 | what the worker settles is what the callback of this very message returned |
| ActorLaws.OutcomeHasCause | runtime/src/host.rs:757-829 | the error a call receives is a shutdown by the owner or the message of a callback that failed |
| ActorLaws.ShutdownMeansReleased | runtime/src/host.rs:897-906 | a shut-down control has an owner that let go |
| ActorLaws.CallHistory | runtime/src/host.rs:757-880 | over every run: a reader is gone exactly if it read or was dropped, a word was handed over exactly if a reader read it, and there is one exactly if the callback of this call succeeded |
| ActorLaws.NeverStuck | runtime/src/host.rs:717-929 | in every state of every run, short of rest, some thread can take its next step |
| ActorLaws.ThreadsCanGoOn | runtime/src/host.rs:717-929 | each thread's next step is open to it in each of its stages |
| ActorLaws.StepDoesWork | runtime/src/host.rs:717-929 | every step but a new call lowers a bound on the steps to come |
| ActorLaws.EveryScheduleEnds | runtime/src/host.rs:717-929 | however threads are scheduled, a stretch without new calls is bounded by the work at hand, so the protocol comes to rest |
| Actor.NothingPendingAfterEnd | host/src/remote.rs:38-97 | after the end nothing is pending, ever |
| Actor.PacketsInOrder | runtime/src/host.rs:757-763 | argument packets reach their callback in the order sent, each at most once, and those of all calls when the worker has finished |
| Actor.OnlyReclaimAfterEnd | runtime/src/host.rs:758-761 | packets used after the end are only reclaimed |
| Actor.ReclaimNeedsEnd | runtime/src/host.rs:758-761 | packets are reclaimed only after the end |
| Actor.WordHandedOrReleasedOnce | runtime/src/host.rs:717-726 | a result word is handed to one await or released, exactly once, once its reader is gone |
| Actor.StateReleasedLast | runtime/src/host.rs:779-779 | actor state is released exactly once when the worker finishes, never before, after the owner is gone and every packet was given back |
| Foreign.ReservedIsUnretained | host/src/foreign.rs:222-227 | the reference count checked before a transfer shows that no existing resource retains the transferred one |
| Foreign.TransferNeedsSoleOwner | host/src/foreign.rs:221-227 | the count a transfer is checked by admits it exactly for a resource that is no receiver, is retained by no resource and is to be retained by no result |
| Foreign.CloseNeedsUnretained | host/src/foreign.rs:545-561 | the count a close is checked by admits it exactly for a resource that no existing one retains |
| Foreign.UnheldIsZero | host/src/foreign.rs:56-62 | a count is zero exactly when no token, call, close or resource holds the resource |
| Foreign.StepKeepsSound | host/src/foreign.rs:56-268 | every host step keeps leases, retained parents, reservations, closings and endings consistent |
| Foreign.RunIsSound | host/src/foreign.rs:56-268 | every state of every run of re-entrant calls satisfies the ownership invariant |
| Foreign.EndsAtMostOnce | host/src/foreign.rs:228-268 | a resource ends by at most one of destroy, forget and consuming close, and by exactly one once dropped |
| Foreign.LeasedAtMostOnce | host/src/foreign.rs:64-83 | across all stacked calls a resource is leased at most once |
| Foreign.OnlyUnretainedEnd | host/src/foreign.rs:222-268 | whatever a step ends is retained by no existing resource |
| Foreign.ParentsOutliveChildren | host/src/foreign.rs:231-248 | while a resource retaining a parent exists, no step destroys, closes or transfers the parent |
| Foreign.RetainedIsNotDropped | host/src/foreign.rs:56-62 | a retained parent is older than its child and is not dropped before it |
| Foreign.ResultKeepsItsParents | host/src/foreign.rs:216-238 | over every run: what a call retained, or checked for transfer, is retained by its result, is not dropped while the result exists, and has no further ending |
| Foreign.ResultAdopted | host/src/foreign.rs:504-511 | the result is adopted live and unleased, with the library and the parents of its call |
| Foreign.OnlyThreeEndings | host/src/foreign.rs:221-248 | ownership changes only by a commit of a checked transfer, a consuming close or a drop; an uncommitted transfer changes none |
| Foreign.YoungestCanBeDropped | host/src/foreign.rs:262-268 | with every token released, the youngest remaining resource can be dropped: no cycle keeps any alive |
| Foreign.NothingLeaks | host/src/foreign.rs:262-268 | with every token released and no drop left, every resource ever adopted has ended exactly once |
| ForeignHost.Host.Acquire | host/src/foreign.rs:64-83 | a lease is granted exactly for a live resource nobody leased |
| ForeignHost.Host.BeginCall | host/src/foreign.rs:97-123 | a call leases its receiver and gets its own frame, or is refused without effect |
| ForeignHost.Host.Lookup | host/src/foreign.rs:184-214 | which lookups succeed; a resource is leased on its first mention in the call, and a refused lookup changes nothing |
| ForeignHost.Host.Resolve | host/src/foreign.rs:173-261 | which lookups, retentions, transfer checks and commits succeed, and their whole effect |
| ForeignHost.Host.EndCall | host/src/foreign.rs:503-541 | a created result is adopted with the retained parents, registered only on success, and the call's leases end |
| ForeignHost.Host.BeginClose | host/src/foreign.rs:545-561 | a close starts exactly for a registered, live, unleased resource nothing else holds |
| ForeignHost.Host.EndClose | host/src/foreign.rs:562-572 | only a consuming close ends the resource and its token |
| ForeignHost.Host.Release | host/src/foreign.rs:646-663 | a token is given up exactly when its resource is neither leased nor being closed; the zero token is accepted without effect |
| ForeignHost.Host.DropResource | host/src/foreign.rs:262-268 | the native value is destroyed unless its pointer was given away |

## Left out

- Portable signatures: `Tree` is modelled for the compiler's own dispatch key; the second implementation, on portable symbols, is not.
- Numbers are unbounded: 32-bit generic indices, 64-bit request identities and tokens, and the aborts when they run out are not modelled.
- Types.DispatchTypeKey: requires that a type is allocated after the types it is written with, as the checker allocates them; the source does not terminate on a cyclic arena either.
- MethodKeys.MethodDispatchKey: the same, for every parameter type; looking the signature of a function up is a parameter.
- CleanupTypes.HasCleanup: requires that every type mentioned exists in the arena; the source panics otherwise.
- Lexers.Lexer.Number: a float literal keeps its digits; conversion to a binary float is not modelled.
- Lexers.Lexer.LexUntil: keywords, operators and documentation are kept as spelled, as the next three lines say, and which characters beyond ASCII are alphabetic is a parameter of the text.
- Lexers.Lexer.Identifier: a keyword is a word with its spelling; the table of keyword kinds is left out.
- Lexers.Lexer.LineComment: documentation keeps its raw text; trimming trailing blanks is left out.
- Lexers.Lexer.BlockComment: documentation keeps its raw text; normalizing its lines is left out.
- Lexers.Lexer.TripleQuoted: the source slices the file by bytes where the model takes a suffix of characters; byte positions are proved to agree.
- Positions: a source text is a sequence of scalar values; the decoding of its bytes is not modelled.
- ControlFlow.SummarizeArm: only whether a statement has a guard is kept of it; loop graphs and irrefutable patterns are left out because they would only add easy members.
- Executions.Execution.EmbeddedExecution: restoring the slots while a panic unwinds is not modelled; polls carry the answers of the probe and of the control.
- Executions: the scheduling budget and coroutine switches are left out; they touch none of the slots.
- Callbacks.Signal.Invoke: only the queued path after the pointer checks; direct callbacks, their `active` flag and the packet copy back to C are left out. Its lock sections run here one after another; the interleaving of sections is what `EveryRunIsSound` quantifies over.
- Callbacks.Signal.Poll: requires an open queue, because the owner's handler entry that poll and release look up is gone once it is closed; running the handlers on the snapshot is left out.
- Callbacks.Signal.Release: whether the handler is running is a parameter, since the `active` flag is left out; token zero is not a signal.
- ActorLaws.EveryScheduleEnds: that the scheduler runs a thread whose step is open, and that callbacks return, is assumed of the environment.
- Actor.FinishedAnswersEveryCall: a blocking call hands its outcome through a second channel, which is identified with the response channel.
- Actor.StateReleasedLast: joining an idle worker on release, and the process aborts on a double await, a closed remote or a poisoned lock, are not modelled. The owner's handle is dropped only after the last call made through it has sent its message.
- Actor.StepKeepsSound: only the worker's failure and the owner's release end the control, as in the runtime; the owner may end it while calls through its handle are still under way, which is more than the language's ownership rules allow.
- Foreign.StepKeepsSound: dropping a resource whose last reference is gone is a later step of its own, so every order of drops is covered, including those the source does not take.
- ForeignHost.Host.BeginCall: loading libraries, bridge paths, schema text, metadata, borrowed buffers and scalar calls are left out; a call's result and its acceptance are arbitrary.
- ForeignHost.Host.Resolve: a resource is identified with its token, and borrow flags are reduced to the resources being closed; re-entrance from the native forget and destroy functions is not modelled, because the resolver holds the frame stack during them.
- Files, sockets, readiness, clocks, processes, the language server, the debugger and packaging are outside these cores.
