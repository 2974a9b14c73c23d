# miga shell: verified models

A Dafny model of six pieces of the miga shell, with proofs of what they are
for. `dafny verify dfyconfig.toml` checks everything. Each piece follows the
C code's own form: structures that are updated in place are classes with
invariants, loops are loops, and every method is proved against a function
whose own meaning is then proved in lemmas.

* **Builtin registry** (`BuiltinStore.dfy`): the open-addressing hash table
  stands for a finite map through every run of operations.
* **Redirections** (`Kernel.dfy`, `FdTable.dfy`, `FdNumber.dfy`,
  `RedirectState.dfy`, `Redirect.dfy`): the operating system is a map from
  descriptors to open file descriptions. The protocol (collect, save, apply,
  roll back, restore) leaves that map exactly as it was, and in between means
  the left-to-right reading of the list.
* **Arithmetic** (`ArithTokens.dfy`, `ArithValues.dfy`, `ArithParser.dfy`,
  `ArithTrees.dfy`, `ArithRuns.dfy`, `ArithResults.dfy`, `ArithLaws.dfy`): what the
  evaluate-while-parsing routine returns for the text of every expression tree,
  in every store, as a function of the tree. It is the tree's plain meaning
  when no left side of `||` or `&&` decides; where one does, it is an error or
  the meaning of a differently grouped tree. The text may have blanks between
  its tokens or none, where two of them cannot run together; what each operator
  gives and how it groups is also stated by its text, without the evaluator's
  own tables.
* **Expansion** (`FieldSplit.dfy`, `HereDoc.dfy`): field splitting against the
  documented rules, and here-document expansion as a round trip.
* **Execution frames** (`FramePolicy.dfy`, `FrameOwnership.dfy`,
  `FrameStores.dfy`, `FrameStack.dfy`, `LineReader.dfy`): who owns which store
  over every nested run of pushes, pops and changes, exactly what the frame
  around such a run sees of it, and the chunked line reader.
* **Path canonicalizer** (`CdPath.dfy`): normal form, idempotence, same
  directory.

`Options.dfy`, `Strings.dfy` and `Bits.dfy` hold what several pieces share.

System calls that may run out of a resource fail nondeterministically, and a
counter of such refusals lets the contracts say what happens without one. The
value of IFS, parameter lookup, already expanded redirection targets and the
contents of freshly made stores are parameters. Memory of frames and of their
stores is explicit (maps from addresses), so that a use after a free, a double
free or a leak would be visible in the contracts.

## What the code does differently

Each of these is proved of the model, which follows the code.

* With nothing redirected yet, a redirection of a descriptor below 10 that is
  not open is always refused, because its backup cannot be made
  (`Redirect.Frame.Apply`: success implies every touched descriptor was open).
  In POSIX `3>file` opens descriptor 3 (`RedirectState.ClosedTargetIsRefused`).
* A file or here-document opened onto a descriptor that an earlier item closed,
  and that is the lowest free one, leaves it closed: `dup2` onto itself does
  nothing and the "temporary" descriptor that is then closed is the target.
  `RedirectState.CodeMeaningIsRight` says exactly when one item goes wrong,
  `RedirectState.FoldsAgreeExactly` exactly when a list does.
* `<&` without a number before it redirects descriptor 1, where POSIX says 0
  (`Redirect.Frame.ApplyOne`; src/exec_redirect.c:166-180).
* A backup is an ordinary descriptor from 10 up, so `2>&10` can duplicate one
  (`RedirectState.BackupsAreVisibleSources`), which by the plain reading is an
  error; `Redirect.Frame.Apply` states that this is the only way to succeed on
  a list that would be an error without the backups.
* The comment at src/exec_redirect.c:105 says text after a lone `-` is refused;
  the code reads `- 5` as descriptor 5 (`FdNumber.LoneMinusThenNumberIsAccepted`).
* `||` and `&&` whose left side decides return without consuming the right
  side, and the routine that called goes on from there. When the right side does
  not start with a sign this is always an error ("Unexpected tokens after
  expression", "Expected ')'" or "Expected ':'"; `ArithResults.DecidedIsAnError`).
  When it does, it is an error if the operator forms the whole text, or stands
  directly under parentheses or as a first branch
  (`ArithResults.CutIsAnErrorThere`, `ArithResults.CutFirstBranchIsAnError`).
  After an assignment, in a second branch, on the right of `||`, and after a
  comma the calling routine adds the right side to, or subtracts it from, the
  value it holds (`ArithResults.AssignmentTakesUp` and the three lemmas after
  it). So `x = 1 || -5` is -4 (`ArithResults.SilentWrongValue`) and
  `0 || 0 && -5` is -5 (`ArithResults.SilentWrongRightSide`).
* The comma operator keeps the value of its left side. `?:` evaluates both
  branches. An unknown character reads as the end of the input
  (`ArithResults.UnknownCharacterEnds`). A write to a read-only variable is
  silently dropped while the expression keeps its value
  (`ArithResults.ReadOnlyWriteIsDropped`).
* After a name that ends the input the tokenizer's position is -1. The class
  `ArithParser.MathParser` keeps that position, and its methods prove that it
  only ever acts as the end of the input.
* With an IFS of mixed kinds the code emits one extra empty field for every
  "counted delimiter, whitespace delimiters, next field" such as `a : b`
  (`FieldSplit.FollowsTheRulesExactly`).
* A dot script that has a path but no arguments changes `$0` of its caller for
  good (`FrameStack.Executor.EnterAndLeave`).
* The line reader reports the statuses "exit requested" and "not implemented"
  of the line it ran as success (`LineReader.StreamCore`).
* Popping through `&executor->current_frame` clears the field just set to the
  parent. `exec_destroy` therefore frees one frame only
  (`FrameStack.Executor.Destroy`).

## Model

| member | source | states |
|---|---|---|
| BuiltinStore.Fnv1aHash | src/builtin_store.c:41-50 | the loop computes the FNV-1a hash on 32 bits, characters taken as bytes |
| Bits.MaskIsMod | src/builtin_store.c:66-99 | for a power of two, masking with it less one is the remainder |
| BuiltinStore.ProbeIsMasked | src/builtin_store.c:66-99 | the masked probe position is the sum modulo the capacity, one conditional subtraction |
| BuiltinStore.LoadLeavesAnEmptySlot | src/builtin_store.c:143-149 | live slots plus tombstones never exceed the size, and are fewer exactly when an EMPTY slot exists |
| BuiltinStore.FullChainHasNoEmpty | src/builtin_store.c:66-99 | a probe that visits every slot without meeting EMPTY means there is none, so the search cannot fall through |
| BuiltinStore.EmptyEndsSearch | src/builtin_store.c:66-99 | an EMPTY slot met while probing proves the name absent from the whole table |
| BuiltinStore.FindSlot | src/builtin_store.c:66-99 | the masking loop answers the name's own slot, or when it is absent the first slot on its probe path without a live entry; the fall-through is dead code |
| BuiltinStore.PlaceNew | src/builtin_store.c:197-237 | filling the slot a probe answered, EMPTY or tombstone, adds one binding and keeps chains, uniqueness and both counts |
| BuiltinStore.ReplaceLive | src/builtin_store.c:197-237 | replacing an entry changes one binding and nothing else |
| BuiltinStore.BuryLive | src/builtin_store.c:239-260 | a tombstone removes one binding and breaks no probe chain |
| BuiltinStore.ProbeAgrees | src/builtin_store.c:286-331 | the slot a probe answers is live exactly when the name is bound in the map, and then holds that binding |
| BuiltinStore.RehashStep | src/builtin_store.c:105-138 | moving one live entry to the new array keeps all chains there and the bindings moved so far |
| BuiltinStore.RehashDone | src/builtin_store.c:105-138 | after the last entry the new array stands for the same map with no tombstone |
| BuiltinStore.DoubleCapacity | src/builtin_store.c:105-149 | doubling restores the load bound with room for one more entry |
| BuiltinStore.VisitsEachBindingOnce | src/builtin_store.c:348-360 | the visit list has each binding of the map, only those, and no name twice |
| BuiltinStore.Store.constructor | src/builtin_store.c:155-173 | a new store is empty, valid and of capacity 32 |
| BuiltinStore.Store.Grow | src/builtin_store.c:105-138 | same map and count, doubled capacity, no tombstones |
| BuiltinStore.Store.EnsureCapacity | src/builtin_store.c:143-149 | one more entry fits under the load bound; the table grows exactly when used*100/capacity exceeds 70; the map is unchanged |
| BuiltinStore.Store.Set | src/builtin_store.c:197-237 | refuses a NULL name or function, otherwise the new map is the old one with the name bound; validity (capacity a power of two, unique names, unbroken chains, true counts, load bound) is kept |
| BuiltinStore.Store.Remove | src/builtin_store.c:239-260 | true exactly when the name was bound; the new map is the old one without it |
| BuiltinStore.Store.Clear | src/builtin_store.c:262-280 | the map becomes empty, the capacity stays |
| BuiltinStore.Store.Has | src/builtin_store.c:286-295 | true exactly when the map binds the name |
| BuiltinStore.Store.Get | src/builtin_store.c:297-310 | the function the map gives, or none |
| BuiltinStore.Store.Lookup | src/builtin_store.c:312-331 | the function and category the map gives, or none |
| BuiltinStore.Store.ForEach | src/builtin_store.c:348-360 | one callback per binding of the map, none twice |
| BuiltinStore.Store.Run | src/builtin_store.c:197-280 | after any sequence of set, remove and clear the store is valid and stands for the map the same sequence builds |
| FdTable.AddKeepsOriginal | src/fd_table.c:234-332 | re-adding a tracked descriptor keeps the original recorded for it, and other entries |
| FdTable.AnswersAfterAdd | src/fd_table.c:234-293 | what the flag and open queries answer for every descriptor after an add |
| FdTable.AnswersAfterMarks | src/fd_table.c:295-358 | the same after mark_saved, mark_open and mark_closed |
| FdTable.AnswersAfterFlags | src/fd_table.c:495-529 | the same after setting or clearing a flag |
| FdTable.TracksSwapOut | src/fd_table.c:360-403 | overwriting an entry with the last one and shrinking removes exactly that descriptor from the map |
| FdTable.MatchingExactly | src/fd_table.c:537-573 | the entries bearing a flag are exactly the map's descriptors with that flag, each once |
| FdTable.FdTable.Clone | src/fd_table.c:127-147 | an independent table that stands for the same map |
| FdTable.FdTable.FindEntryIndex | src/fd_table.c:50-60 | an index exactly when the descriptor is tracked |
| FdTable.FdTable.Add | src/fd_table.c:234-293 | the map gains or updates one descriptor; descriptors stay unique and highest_fd stays the maximum |
| FdTable.FdTable.MarkSaved | src/fd_table.c:295-332 | the map records the original of a backup, in a new entry if there is none |
| FdTable.FdTable.MarkOpen | src/fd_table.c:334-358 | mark_open and mark_closed: one entry's open flag, found or not |
| FdTable.FdTable.SetFlag | src/fd_table.c:495-511 | adds one flag to a tracked descriptor |
| FdTable.FdTable.ClearFlag | src/fd_table.c:513-529 | takes one flag from a tracked descriptor |
| FdTable.FdTable.Remove | src/fd_table.c:360-403 | the map loses the descriptor; highest_fd is again the maximum or -1 |
| FdTable.FdTable.FlagOn | src/fd_table.c:450-461 | true exactly when the map's entry bears the flag |
| FdTable.FdTable.GetOriginal | src/fd_table.c:463-474 | the recorded original, or -1 |
| FdTable.FdTable.GetFdsWithFlag | src/fd_table.c:537-573 | the two passes return exactly the descriptors with the flag, each once, or null when there is none |
| FdNumber.ParseFdNumber | src/exec_redirect.c:81-160 | the scanner computes the parse function, overflow check inside the digit loop included |
| FdNumber.ParsesExactlyTheGrammar | src/exec_redirect.c:81-160 | a text is read as a descriptor, a move or a close exactly when the grammar spells it so, and never in two ways |
| FdNumber.LoneMinusThenNumberIsAccepted | src/exec_redirect.c:91-118 | a lone "-", blanks and a number are read as that number |
| FdNumber.DecimalRoundTrip | src/exec_redirect.c:227-242 | the number printed for a fixed descriptor, with or without the move marker, is read back |
| FdNumber.BlanksByName | src/exec_redirect.c:87-99 | blanks are the space and the tab |
| FdNumber.TwelveIsRead | src/exec_redirect.c:124-133 | "12" is descriptor twelve |
| RedirectState.DefaultFd | src/exec_redirect.c:166-180 | never negative, and an explicit descriptor wins |
| RedirectState.OneItemMeans | src/exec_redirect.c:166-592 | what a one-item list does, by the names of operators and with its numbers written out: which descriptor, how the file is opened, what a here-document leaves, duplicate, move and close |
| RedirectState.CodeMeaningIsRight | src/exec_redirect.c:343-365 | one item has its plain meaning if and only if it does not open straight onto a closed target that is the lowest free descriptor |
| RedirectState.FoldsAgree | src/exec_redirect.c:288-592 | a condition on the text of the list: if its file and here-document items never target a descriptor closed earlier in it, and its targets start open, the code's fold is the plain left-to-right fold |
| RedirectState.FoldsAgreeExactly | src/exec_redirect.c:288-592 | for every list and state: the code follows the plain reading after every item if and only if no item makes a file while its target is the next descriptor to open |
| RedirectState.ReopeningAClosedDescriptorLosesIt | src/exec_redirect.c:343-365 | the concrete list "1>&- 1>f" leaves 1 closed where the plain meaning opens it |
| RedirectState.InFlightStep | src/exec_redirect.c:288-592 | an item that touches only saved descriptors keeps "differs from the original only where a backup remembers it", and keeps the backups |
| RedirectState.SaveStep | src/exec_redirect.c:251-286 | a save of an unsaved descriptor keeps that invariant and remembers one more |
| RedirectState.RestoreUndoes | src/exec_redirect.c:599-667 | from any state in flight, undoing every backup in any order gives back the original map with nothing saved or redirected |
| RedirectState.BackupsChangeNothing | src/exec_redirect.c:251-592 | an item does the same to the visible descriptors whether or not backups exist, so saving first never changes what a later item sees |
| RedirectState.BackupsAddNoFailure | src/exec_redirect.c:251-592 | an item that fails beside backups fails without them too |
| RedirectState.BackupSourcesMeanAnError | src/exec_redirect.c:251-592 | an item the code carries out means anything without the backups if and only if its source is not a backup |
| RedirectState.BackupsAreVisibleSources | src/exec_redirect.c:251-286 | naming a backup's number duplicates the saved file onto the target, where the plain meaning is an error |
| RedirectState.ClosedTargetIsRefused | src/exec_redirect.c:251-286 | "n>file" with n closed opens n by the plain reading, but no closed target passes the save |
| RedirectState.ListFolded | src/exec_redirect.c:183-597 | what a successful list has come to: the fold is an error if and only if a source was a backup, and otherwise is what is visible |
| RedirectState.FoldStops | src/exec_redirect.c:288-592 | a list with a prefix that means an error means an error |
| RedirectState.ParkOne | src/exec_redirect.c:688-723 | one duplicate either parks one more low slot, of which there are fewer than ten, or lands at the lowest slot from 10 up |
| RedirectState.Pigeonhole | src/exec_redirect.c:688-723 | n slots below n, so the spill array never overflows |
| Kernel.Kernel.DupAbove | src/exec_redirect.c:267 | F_DUPFD: the lowest free slot from the floor, failing only on a closed source or a refusal |
| Redirect.Frame.WireFile | src/exec_redirect.c:343-374 | open, dup2, close: the target gets the new file, unless it was the next descriptor to open; a failure leaves no descriptor behind |
| Redirect.Frame.WireBuffer | src/exec_redirect.c:472-584 | a here-document of over 4096 characters through a temporary file, else a pipe, holding the whole text; no descriptor left behind |
| Redirect.Frame.WireDescriptor | src/exec_redirect.c:421-458 | n>&m and n>&m-, the self-move included, on kernel and table |
| Redirect.Frame.Unwire | src/exec_redirect.c:460-470 | n>&-: refused exactly when the target is not open |
| Redirect.Frame.ApplyItem | src/exec_redirect.c:288-592 | success is exactly the item's meaning; failure changes nothing; unless a call was refused, failure means the item means an error |
| Redirect.Frame.CollectTargets | src/exec_redirect.c:206-249 | marks exactly the targets and moved-from sources of the list |
| Redirect.Frame.SaveOriginals | src/exec_redirect.c:251-286 | success: exactly the marked descriptors have backups and nothing else changed; failure without a refusal: a marked descriptor is not open |
| Redirect.Frame.RestoreBackup | src/exec_redirect.c:617-663 | one restore step on kernel and table |
| Redirect.Frame.Restore | src/exec_redirect.c:599-667 | runs that step over every saved entry, each once |
| Redirect.Frame.Apply | src/exec_redirect.c:183-597 | a failure at any step rolls the kernel map back to what it was; a success keeps it in flight; the code's fold of the list then has a value if and only if no source is a backup, and is exactly what is visible below the backups, which is the plain fold when no item loses its file; without a refused call it fails only if a touched descriptor is not open or the fold is an error |
| Redirect.Frame.ApplyOne | src/exec_redirect.c:166-597 | after a successful one-item list the visible descriptors differ from the original ones exactly so: ">", ">>" and forced ">" at 1, "<", "<>" and here-documents at 0, or at the number written before the operator |
| Redirect.Frame.ApplyThenRestore | src/exec_redirect.c:183-667 | apply then restore, or a failed apply, leaves the kernel map exactly as it was and nothing saved or redirected |
| Redirect.Frame.DupToSafeSlot | src/exec_redirect.c:688-723 | success adds one copy at the lowest slot from 10 up and changes nothing else, failure changes nothing and without a refusal means a closed source; the overflow branch is dead |
| ArithTokens.NextToken | src/arithmetic.c:111-319 | the token at an index of the text: the index stays within the text and moves forward on every token but the end; the code's position is this index, or -1 for the end after a name |
| ArithTokens.NumberReadsBack | src/arithmetic.c:120-175 | decimal, leading-zero octal and 0x or 0X numerals are read to their end and value, in front of anything that is no digit of their base |
| ArithTokens.DigitsSpell | src/arithmetic.c:120-175 | every number is spelled by its decimal digits, its octal digits after a zero and its hexadecimal digits after 0x |
| ArithTokens.NumeralsArePositional | src/arithmetic.c:128-170 | a digit counts by the power of the base its place gives |
| ArithTokens.DigitsByName | src/arithmetic.c:133-141 | the value of each digit, both cases of the letters |
| ArithTokens.BlanksByName | src/arithmetic.c:104-108 | the characters skipped between tokens |
| Strings.CharactersByName | src/arithmetic.c:80-86 | the borders of the digit and name character classes |
| ArithTokens.NameReadsBack | src/arithmetic.c:177-186 | a name is read whole, in front of anything that is no name character |
| ArithTokens.OperatorReadsBack | src/arithmetic.c:188-315 | every operator spelling is read as that operator, in front of anything that does not make it a longer one |
| ArithTokens.LongestOperatorWins | src/arithmetic.c:188-315 | longest match: when an operator's spelling stands at an index and no longer spelling does, the token there is that operator |
| ArithTokens.WrittenReadsBack | src/arithmetic.c:111-319 | tokens written with any blanks between them, or none where the next text does not continue the one before, are read back in order, and then the end |
| ArithTokens.SpacedReadsBack | src/arithmetic.c:111-319 | tokens spelled with spaces between them are read back in order up to the end of the text, and then the end |
| ArithTokens.TightWrites | src/arithmetic.c:111-319 | texts of which none continues the one before may be written without any blank |
| ArithTokens.LexesSplit | src/arithmetic.c:111-319 | a reading of two token lists in a row passes through a position between them |
| Bits.BitwiseActsOnEachBit | src/arithmetic.c:553-561 | and, or, xor act on every two's complement bit |
| ArithValues.TruncModIsCRemainder | src/arithmetic.c:507-522 | quotient toward zero, remainder of the dividend's sign and smaller than the divisor |
| ArithParser.ParseExpression | src/arithmetic.c:396-577 | terminates on every input, stays within it, and a success consumes something |
| ArithParser.ParsePrimary | src/arithmetic.c:580-719 | the same for primaries |
| ArithParser.MathParser.FindNameEnd | src/string_t.c:1400-1419 | the end of the run of name characters, or -1 when it reaches the end of the input |
| ArithParser.MathParser.GetToken | src/arithmetic.c:111-319 | from every position, -1 included, the scanner's branches give the token function's token and, unless it is the end, leave a position that stands for the function's index; at -1 it is the end, and the position becomes 0 |
| ArithParser.MathParser.Expression | src/arithmetic.c:396-425 | from every position the recursive routine returns the parse function's outcome and variables and, on success, a position standing for its index |
| ArithParser.MathParser.OperatorLoop | src/arithmetic.c:427-577 | so does its loop, from any first operand |
| ArithParser.MathParser.Primary | src/arithmetic.c:580-719 | so does the primary routine, assignments included |
| ArithParser.ArithmeticEvaluate | src/arithmetic.c:819-857 | the whole evaluation of expanded text has the outcome and variables of the evaluation function, whatever the position does; empty text and trailing tokens included |
| ArithRuns.RunsBare | src/arithmetic.c:396-577 | from any index, minimum and store, for every tree: parsing its tokens continues with its ending's value, stops with its error, or returns in front of what a decided operator left |
| ArithRuns.RunsSum | src/arithmetic.c:428-576 | the operator loop standing at a sign-led rest takes it up as a sum, re-grouped by the precedence table |
| ArithRuns.RunsInfix | src/arithmetic.c:486-575 | an operator and its right side after any left side: undecided, decided, or itself cut short |
| ArithResults.EveryTextEnds | src/arithmetic.c:819-857 | for every tree, store and way to write the tree's tokens, with no condition, the text evaluates to the tree's ending |
| ArithResults.UndecidedEnds | src/arithmetic.c:396-577 | when no left side decides, the ending is the plain meaning |
| ArithResults.ParsesBare | src/arithmetic.c:396-577 | from any index, minimum and store, if no logical operator met is decided, parsing a tree's tokens continues with the tree's value in the operator loop, or stops with its error |
| ArithResults.ParsesSet | src/arithmetic.c:589-699 | plain and compound assignments: right side first, then the old value, then the write |
| ArithResults.PrintedTreesParse | src/arithmetic.c:349-577 | for every tree (numbers, variables, unary and all binary operators, ?:, assignments, comma) and store for which no left side of a logical operator decides, printed with only the parentheses the precedence table needs, the parser consumes exactly the printed tokens and returns the tree's value and store, or its first error |
| ArithResults.TextEvaluates | src/arithmetic.c:819-857 | the same for the whole evaluation of any text that reads as those tokens and then the end, which an unknown character also ends |
| ArithResults.SpelledTreesEvaluate | src/arithmetic.c:819-857 | end to end on text: under the same condition every way to write a printed tree evaluates to the tree's value and store |
| ArithResults.StuckBare | src/arithmetic.c:486-492 | if a logical operator met is decided, and no right side of one starts with a sign, parsing the tree's tokens fails or stops at a token no enclosing routine accepts |
| ArithResults.DecidedIsAnError | src/arithmetic.c:486-492 | for every tree whose logical right sides do not start with a sign, and every spelling: the evaluation has a value if and only if no left side decides and nothing fails |
| ArithResults.ShortCircuitIsAnError | src/arithmetic.c:486-492 | the exact result of a logical operator that forms the whole text, whatever its right side starts with: a deciding left side ends as an unexpected-token error with the left side's assignments, otherwise the tree's meaning |
| ArithResults.CutIsAnErrorThere | src/arithmetic.c:486-492 | a decided operator that forms the whole text, or stands directly under parentheses, is an error whatever its right side starts with |
| ArithResults.CutFirstBranchIsAnError | src/arithmetic.c:455-470 | so is one directly in a first branch |
| ArithResults.RegraftRuns | src/arithmetic.c:428-576 | taking up a rest that starts with a sign, however deep the sign stands, is evaluating the tree grouped with what the routine holds on the left |
| ArithResults.CutHasHead | src/arithmetic.c:486-492 | every cut happens at a tree that was evaluated completely, so the four lemmas below cover every cut |
| ArithResults.LeftCuts | src/arithmetic.c:428-576 | a cut in a left operand leaves its rest together with the operator and the right side |
| ArithResults.AssignmentTakesUp | src/arithmetic.c:589-699 | a plain or compound assignment whose right side was cut evaluates like (x = done part) plus or minus the rest |
| ArithResults.SecondBranchTakesUp | src/arithmetic.c:455-484 | the same for a second branch, whichever branch is chosen |
| ArithResults.RightSideTakesUp | src/arithmetic.c:494-575 | the same for a right operand |
| ArithResults.SecondSideTakesUp | src/arithmetic.c:442-453 | the same for the second side of a comma |
| ArithResults.DecidedAssignment | src/arithmetic.c:486-492 | on text: "x = l OR r" or "x = l AND r" with l deciding and r starting with a sign, for every assignment operator, both signs and any depth of the sign |
| ArithResults.DecidedSecondBranch | src/arithmetic.c:486-492 | on text: the same in a second branch |
| ArithResults.DecidedRightSide | src/arithmetic.c:486-492 | on text: the same for "a OR l AND r" |
| ArithResults.DecidedSecondSide | src/arithmetic.c:486-492 | on text: the same after a comma |
| ArithResults.SignAfterDecisionIsSubtraction | src/arithmetic.c:486-492 | whenever l decides, "x = l OR -r" assigns l's value to x and evaluates to that value minus r |
| ArithResults.SilentWrongValue | src/arithmetic.c:486-492 | "x = 1 OR -5" evaluates to -4 with x at 1, and to no error |
| ArithResults.SilentWrongRightSide | src/arithmetic.c:486-492 | "0 OR 0 AND -5" evaluates to -5 |
| ArithResults.UnknownCharacterEnds | src/arithmetic.c:314-316 | a tree's text followed by any character no token starts with evaluates to the tree's meaning, whatever comes after |
| ArithResults.ReadOnlyWriteIsDropped | src/arithmetic.c:692-698 | an assignment to a set read-only variable has the assigned value and changes nothing |
| ArithResults.CommaKeepsTheLeftValue | src/arithmetic.c:442-453 | the exact result of a comma expression: the left value, with both sides' assignments (nested commas are covered by SpelledTreesEvaluate) |
| ArithResults.CommaShows | src/arithmetic.c:442-453 | a comma whose sides are harmless means what C says if and only if a side fails or both have the same value |
| ArithResults.HarmlessMeansC | src/arithmetic.c:396-577 | a tree means what it means in C (right sides and branches skipped, commas with their second value) whenever what C skips neither fails nor assigns and comma sides have equal values |
| ArithResults.EvaluatesAsC | src/arithmetic.c:819-857 | end to end: then, if no left side decides, its text evaluates to its meaning in C |
| ArithResults.SkippedBranchShows | src/arithmetic.c:455-484 | a single ?: of harmless parts that chooses its first branch means what C says if and only if that branch fails or the skipped one neither fails nor assigns |
| ArithResults.SkippedFirstBranchShows | src/arithmetic.c:455-484 | one that chooses its second branch, the first leaving the variables alone, does if and only if the first does not fail, or fails as the second does |
| ArithResults.BothBranchesAreInvisible | src/arithmetic.c:455-484 | a condition on the text alone: no comma, and what C may skip does not assign and either does not divide or nothing fails |
| ArithResults.BothBranchesShow | src/arithmetic.c:455-484 | concrete expressions that do not mean what C says |
| ArithResults.BranchesCanCancel | src/arithmetic.c:455-484 | a concrete harmful expression that still does, so that being harmless is not necessary |
| ArithLaws.OperatorsOnText | src/arithmetic.c:502-575 | for all trees l and r with values, the text of "l op r" gives what the operator's text says of the two integers: sums and products, truncated quotient and its remainder or the zero-divisor error, repeated doubling or halving, the six comparisons as 1 or 0, bits, truth values |
| ArithLaws.OperatorsKeepTheirLaws | src/arithmetic.c:502-575 | the same of the operator table, for all integers |
| ArithLaws.UnariesOnText | src/arithmetic.c:411-417 | what "+", "-", "!" and "~" give, the last by every bit |
| ArithLaws.VariablesOnText | src/arithmetic.c:602-619 | a variable reads as its value, an unset one as 0 |
| ArithLaws.AssignmentsOnText | src/arithmetic.c:622-698 | an assignment gives and stores what its operator says of the old value, read after the right side; a zero divisor is an error and stores nothing |
| ArithLaws.TextsGroupByLevel | src/arithmetic.c:349-387 | "a op1 b op2 c" groups to the left when op1's level is at least op2's and to the right otherwise, the ten levels listed by the operators' texts |
| ArithLaws.TextsGroupLooser | src/arithmetic.c:349-387 | conditionals bind looser than every binary operator, and an assignment takes all that follows it |
| ArithLaws.FiveMinusThree | src/arithmetic.c:111-319 | "5-3" evaluates to 2 |
| FieldSplit.ExpandFieldSplit | src/exec_frame_expander.c:789-902 | the nested loops compute the split function and terminate, for every text and IFS |
| FieldSplit.SkipDelimiters | src/exec_frame_expander.c:850-895 | the delimiter loop computes the fields from a delimiter on |
| FieldSplit.ConsumeHard | src/exec_frame_expander.c:869-888 | the run of counted delimiters, one empty field each time another delimiter or the end follows |
| FieldSplit.FollowsTheRulesExactly | docs/field-splitting.md:105-170 | the code returns the documented rules' fields if and only if no counted delimiter is followed by whitespace delimiters and then a field; each such place adds exactly one field |
| FieldSplit.OneKindNeverGlitches | src/exec_frame_expander.c:789-902 | with an IFS of one kind there is no such place |
| FieldSplit.SplittingConserves | src/exec_frame_expander.c:809-895 | for every text and IFS no field holds an IFS character, and the fields in order are the text without them |
| FieldSplit.HardSplitCountsAndJoins | src/exec_frame_expander.c:789-902 | without whitespace in IFS: delimiters plus one fields, and for a one-character IFS joining gives the text back |
| FieldSplit.SoftSplitIsTheRuns | src/exec_frame_expander.c:789-902 | with whitespace only: exactly the maximal stretches without delimiters, none for a blank text |
| FieldSplit.DefaultIfsSplitsAtBlanks | src/exec_frame_expander.c:789-902 | under the default IFS the fields are the longest stretches without space, tab and newline |
| FieldSplit.OtherCharactersCount | src/exec_frame_expander.c:789-902 | any other single character counts each time, and joining the fields gives the text back |
| HereDoc.ExpandHeredoc | src/exec_frame_expander.c:1179-1327 | the scan loop computes the expansion function; a quoted body is copied |
| HereDoc.MatchBraces | src/exec_frame_expander.c:1236-1245 | the brace loop finds the brace that closes the first one, or reports that none does |
| HereDoc.ExpandDollar | src/exec_frame_expander.c:1218-1312 | what each form after a dollar sign appends and where the scan goes on |
| HereDoc.TemplateRoundTrip | src/exec_frame_expander.c:1194-1326 | for every template of literals, references (braced ones with matching braces), line continuations and special characters that stand for themselves (a lone backslash, a dollar sign before what starts no parameter or before a brace nothing closes, a backquote), writing it out and expanding it gives the literals joined with the values |
| HereDoc.EscapeRoundTrip | src/exec_frame_expander.c:1194-1326 | any text survives escaping and expansion |
| FrameOwnership.SlotIsOwners | src/exec_frame.c:184-409 | a slot points to the store of the nearest frame, itself included, that owns that resource |
| FrameOwnership.AliasedExactlyWhenShared | src/exec_frame_policy.h:322-1313 | every slot is live, and two slots are one store exactly when they are the same resource with the same owner |
| FrameOwnership.LoopDepthCounts | src/exec_frame.c:445-449 | loop_depth is the number of loop frames on the chain |
| FrameOwnership.TakeOver | src/exec_frame.c:499-555 | a store of the executor becomes a frame's without being freed or doubly owned |
| FrameStores.OwnersAgree | src/exec_frame.c:415-725 | the chain alone determines who owns what, so equal chains mean equal sets of live stores |
| FrameStores.ChainPush | src/exec_frame.c:415-491 | a frame whose slots were obtained as its policy says joins the chain |
| FrameStores.PushKeeps | src/exec_frame.c:230-301 | a push changes what no older store holds, positional parameters apart |
| FrameStores.EnterSees | src/exec_frame.c:184-491 | what a new frame sees in its slots is a function of what its parent sees |
| FrameStores.EnteringInherits | src/exec_frame.c:184-409 | what goes into a new frame, by the names of kinds and slots: copies for subshell, background and pipeline-command frames with traps reset, a function's arguments with the parent's $0, a dot script's arguments and path, everything for the sharing kinds |
| FrameStores.SharedByName | src/exec_frame_policy.h:322-1313 | for every kind by name, the slots whose changes show outside |
| FrameStores.PoliciesByName | src/exec_frame_policy.h:322-1313 | which kinds hand their exit status up, count as a loop, have locals or track a source name |
| FrameStores.HandedOverByName | src/exec_frame.c:499-555 | the seven slots a pre-initialized executor hands over |
| FrameStores.LeaveSees | src/exec_frame.c:580-725 | after leaving a frame its parent sees the changes to the slots they share and nothing else |
| FrameStores.IsolatedKinds | src/exec_frame_policy.h:322-1313 | exactly top-level, subshell, background and pipeline-command frames share no slot |
| FrameStores.IsolatedRunsShowNothing | src/exec_frame_policy.h:322-1313 | whatever runs in such a frame, to any depth, the frame around it sees nothing of it |
| FrameStores.SharedChangeShows | src/exec_frame_policy.h:322-1313 | the last change a frame makes to a slot it shares is what the frame around it sees |
| FrameStores.QuietViews | src/exec_frame.c:415-725 | when nothing inside changes a slot, only positional parameters can look different afterwards |
| FrameStores.NewStoresAreItsOwn | src/exec_frame.c:184-409 | the stores a new frame owns are exactly those its push made |
| FrameStores.VisitStores | src/exec_frame.c:415-681 | freeing what a push made leaves the stores before it, but for $0 |
| FrameStack.Executor.InitSlot | src/exec_frame.c:184-409 | one resource obtained as the policy says: new, copied from the parent (traps reset for subshells), or the parent's; positional parameters made for a call keep the parent's $0 |
| FrameStack.Executor.SetArg0 | src/exec_frame.c:230-301 | a dot script's path becomes $0 of the parameters the frame uses |
| FrameStack.Executor.Push | src/exec_frame.c:415-491 | the new frame is current, every slot was obtained as its kind says, it sees what a frame of that kind inherits from what its parent saw, status, background id and loop depth come from the parent, and the ownership invariant holds |
| FrameStack.Executor.Cleanup | src/exec_frame.c:580-681 | frees exactly the stores the frame owns, each while still live |
| FrameStack.Executor.Pop | src/exec_frame.c:683-725 | the parent is current, exactly the popped frame's stores are gone, its status is passed up if its kind says so, and nothing still referenced was freed |
| FrameStack.Executor.EnterAndLeave | src/exec_frame.c:415-725 | a push and its pop restore frames and stores exactly, but for $0 of the caller of a dot script without arguments |
| FrameStack.Executor.ChangeSlot | src/exec_frame.c:1386-1400 | a change to one slot of the current frame shows in that slot and in no store the frame does not point to |
| FrameStack.Executor.Run | src/exec_frame.c:1204-1294 | any properly nested run of frames and changes, to any depth, ends with the same chain, owners and live stores; what the current frame sees is exactly the specified view, no store it does not point to has changed, none at all when the frame entered is isolated; the status handed up is that of the last frame that affects its parent |
| FrameStack.Executor.NothingLeft | src/exec_frame.c:683-725 | after the last pop no frame is in memory and the only stores are those no frame took over |
| FrameStack.Executor.PopThroughCurrentFrame | src/exec_frame.c:720-722 | popping through the executor's own field clears it, so the state stays consistent if and only if one frame was left |
| FrameStack.Executor.Destroy | src/exec.c:149-153 | the destroying loop stops after one frame and empties memory if and only if there was at most one |
| FrameStack.Executor.Preset | src/exec_frame.c:499-555 | a store set up before the first frame |
| FrameStack.Executor.HandOver | src/exec_frame.c:499-555 | the first frame's own store is freed and the executor's put in its place |
| FrameStack.Executor.CreateTopLevel | src/exec_frame.c:493-571 | every resource of the first frame is the executor's store with its content if one was set up, else new; options, umask and statuses are the executor's |
| LineReader.Stream.Fgets | src/exec_frame.c:2983 | fgets: up to a newline or the chunk size less one, NUL-terminated |
| LineReader.LineBuffer.Append | src/exec_frame.c:3014-3050 | appends the chunk and a terminator within the grown size |
| LineReader.StreamCore | src/exec_frame.c:2965-3076 | for a stream without NULs and any chunk size from 2, exactly the next line is consumed and handed on whole, nothing only at the end; the status is the line's when that is an error or incomplete, else success |
| LineReader.ChunkOfLine | src/exec_frame.c:2983-3050 | a chunk ending in a newline completes the line, any other leaves the rest of it |
| LineReader.LinesAreTheStream | src/exec_frame.c:2965-3076 | the lines are whole and together are the stream |
| LineReader.ReadAll | src/exec_frame.c:2965-3076 | calls until nothing is handed on yield the stream's lines in order |
| CdPath.CdCanonicalize | src/builtins.c:2218-2264 | the component loop computes the canonical path, the empty path included |
| CdPath.ResultIsNormal | src/builtins.c:2218-2264 | no empty or "." component, ".." only as a leading run of a relative path |
| CdPath.ResultShape | src/builtins.c:2218-2264 | a result is never empty, starts with a slash exactly when the path starts with either slash, and holds no backslash |
| CdPath.DotsAndRoots | src/builtins.c:2218-2264 | the empty path is ".", and either slash alone is "/" |
| CdPath.NamesAreCanonical | src/builtins.c:2218-2264 | a path without either slash is its own canonical form |
| CdPath.EitherSlashSeparates | src/builtins.c:2218-2264 | both slashes separate components |
| CdPath.Idempotent | src/builtins.c:2218-2264 | canonicalizing twice changes nothing more |
| CdPath.SameDirectory | src/builtins.c:2218-2264 | from every directory the result names the directory the path names, ".." at the root staying there |

## Left out

- Redirect.Frame.Apply: nested (stacked) applications are not covered, because restore undoes every saved entry in the table; the claims are for a table with nothing saved or redirected at entry, targets and moved-from sources below 10. When a source names a backup, the success is stated (the fold is then an error) and that restore still undoes everything, but not the resulting map.
- Redirect.Frame.CollectTargets: FD_SETSIZE is a parameter of at least 10. Targets from it up are not backed up at all; the claims are for targets below 10.
- ArithResults.HarmlessMeansC: not both ways for a whole tree, because the branches' assignments can cancel out (ArithResults.BranchesCanCancel). Both ways for one operator: ArithResults.CommaShows, ArithResults.SkippedBranchShows, and ArithResults.SkippedFirstBranchShows when the skipped first branch leaves the variables alone.
- LineReader.StreamCore: for streams with NUL characters only progress and the status are stated.
- FrameStack.Executor.Push: frames and stores are entries of maps keyed by address, not Dafny objects, because an object cannot be freed; a store's content is one value, changed by a function on it.
- Kernel: file contents, offsets, creation modes, unlinking and close-on-exec across exec are not modelled; here-document text is recorded per open file description.
- Integers are unbounded: signed overflow and out-of-range shift counts, undefined in C, are not modelled; a negative shift count gives 0.
- Variables are read and written as numbers in one store: the texts `atol` and printing pass through, and local scopes, are not modelled.
- The expansion before arithmetic evaluation, and before redirection targets are used, is a parameter; both passes over a redirection list see the same text.
- Command and arithmetic substitution in here-documents: the code leaves them as they stand, and so does the model.
- The exit trap a pop may run, source lines, standard streams of frames, and how copies of stores are made internally.
- Process work: fork, pipelines, signals, job control; break, continue and return through frames.
- The ISO C redirection path and the Windows one beyond `dup_to_safe_slot`.
- Alias store, getters and setters, constructors and printers of the syntax tree: field access and copying without an invariant of their own.
- Failing allocation, a missing descriptor table, log and warning messages.
