# Verified models of the z3-ocaml-sandbox tools

This project models five parts of the sandbox and proves what they promise:

* **Symbol rebinding** (`tools/z3-bench/fishhook.c`). `Rebindings.dfy` is the state
  machine on values: batches of rebindings, images with pointer slots, words of
  memory, `rebind_symbols` and image loading as steps. `Fishhook.dfy` is the engine
  itself, a class with the bump heap, the linked list of batches stored in it, the
  byte cursor over load commands and the loops over sections and slots; its methods
  are proved to take exactly the steps of the state machine. `Execution.dfy` drives
  it through any sequence of calls and image loads: the result is the corresponding
  run, until the heap is full. `Passes.dfy` describes one pass over slots and
  `Requests.dfy` a whole run by the page-protection requests it makes, whichever
  fail. `Precedence.dfy` proves which binding every slot holds after any run, and
  `SavedOriginals.dfy` where the bindings saved through `replaced` come from and that
  they lead to older rebindings, again whichever requests fail. `SharedCells.dfy`
  gives the exact condition for that when rebindings share a cell, and `SavedWords.dfy`
  the exact word that a cell holds. `ImageTargets.dfy` says in the names and numbers of
  the Mach-O format which pointers are rebound.
* **S-expressions** (`tools/z3-bench/sexpr.h`). `SExpr.dfy` defines trees, tokens and
  a reference parser on tokens; `SExprParser.dfy` has the cursor-based parser class
  and the top-level loop; `SExprTheorems.dfy` proves that the parser refines the
  reference, conserves tokens and round-trips with the indenting printer.
  `SExprCharacters.dfy` says what each character does between words, and
  `SExprLayout.dfy` what the printed text is, line by line.
* **The line filter** (`scripts/filter-out-get-model-smt-files.py`). `SmtFilter.dfy`
  is the filter; `FilterTheorem.dfy` proves exactly when filtering removes the
  dropped command forms and nothing else from what the parser reads.
* **Blocked parallel loop** (`tools/z3-bench/z3-bench.cpp`). `Blocks.dfy` is the range
  division, `Latch.dfy` the join on the counting latch as interleaved steps.
* **Profile accumulation** (`bin/profile.ml`). `Profile.dfy` interleaves any number of
  `start_smt` and `finish_smt` calls at the level of single atomic operations;
  `Contention.dfy` shows that its bound on failures is attained.
* **Formatting and branch decoding**. `NoAllocStdio.dfy` writes numbers and addresses
  into caller buffers; `BranchScan.dfy` finds and decodes the first BL instruction.

`Common.dfy` holds definitions that several of these share.

## How the code is read

* The log of batches is kept oldest first; the list in the heap has the newest entry
  at its head. A word of memory is present in `mem` from the moment it is first
  written: image words at load, a `replaced` cell when a binding is saved in it.
* Page protection is an arbitrary function from request number to success.
* A name in a rebinding is compared with the symbol name without its first character,
  and only for symbols of at least two characters, as in the code.
* `fishhook.h` says that a later rebinding of a symbol takes precedence. The code
  does this between calls only: within one call the lowest index decides. A batch
  keeps the promise in every run exactly when the first and the last rebinding of each
  symbol in it have the same replacement (`PromiseKeptExactly`, a condition on the
  batch alone); `DuplicateInOneCall` is a run in which the first of two wins.
* Nothing keeps two rebindings from naming one `replaced` cell. Saved bindings then lead
  to strictly older rebindings in every run exactly when no later rebinding lends its
  saving to the cell of one that is not newer than what it saves (`DescentExactly`);
  `SharedCellCycles` is a run in which a saved binding points at itself.
* The parser returns an empty atom both at the end of the text and in front of a `)`
  without a partner, so the top-level loop stops at either.
* A notification on the latch has to unblock the caller only if the decrement before it
  came after the value the caller blocked on ([atomics.wait] in ISO C++20); otherwise
  it may or may not. Spurious wakeups may happen at any time.
* A compare-and-set in the profile compares boxes by identity, as OCaml's does; each
  attempt allocates a fresh box.
* Abort is a result value: nothing is claimed about the process afterwards except
  that the list of batches has not changed.

## Model

| member | source | states |
|---|---|---|
| SExprs.ParseTokensConserves | tools/z3-bench/sexpr.h:73-100 | the reference parser consumes exactly the tokens before the first unmatched closing parenthesis; the trees spell them plus the missing closing parentheses |
| SExprs.ParseFlattened | tools/z3-bench/sexpr.h:82-100 | trees written as tokens in front of anything are parsed back as themselves |
| SExprs.BalancedIsFlattened | tools/z3-bench/sexpr.h:82-100 | token sequences without unmatched or missing parentheses are exactly those that spell trees |
| SExprs.ParseAfterBalanced | tools/z3-bench/sexpr.h:73-100 | parsing distributes over concatenation after a balanced prefix |
| SExprs.ParseAfterStray | tools/z3-bench/sexpr.h:89-97 | nothing behind an unmatched closing parenthesis is read |
| SExprs.FlattenAllMatched | tools/z3-bench/sexpr.h:82-100 | trees written as tokens are balanced at every nesting depth |
| SExprParsing.SExprParser.constructor | tools/z3-bench/sexpr.h:37-39 | a new parser has skipped leading whitespace |
| SExprParsing.SExprParser.SkipBlanks | tools/z3-bench/sexpr.h:52-57 | the cursor moves past exactly the leading whitespace |
| SExprParsing.SExprParser.Parse | tools/z3-bench/sexpr.h:44-46 | one call reads one tree as specified and leaves the rest unread |
| SExprParsing.SExprParser.ParseExpr | tools/z3-bench/sexpr.h:71-80 | reads one tree; terminates on the remaining length |
| SExprParsing.SExprParser.ParseList | tools/z3-bench/sexpr.h:82-100 | the loop collects all trees up to the closing parenthesis or the end |
| SExprParsing.SExprParser.ParseAtom | tools/z3-bench/sexpr.h:102-114 | the atom is the longest prefix without delimiters |
| SExprParsing.SentinelStops | tools/z3-bench/sexpr.h:73-80 | the empty atom comes back exactly at the end or in front of an unmatched closing parenthesis, having consumed only whitespace |
| SExprParsing.ParseProgram | tools/z3-bench/z3-bench.cpp:289-301 | the top-level loop terminates and collects what the parser reads up to the sentinel |
| SExprCharacters.BetweenWords | tools/z3-bench/sexpr.h:28-30 | between two words, a space, tab, line feed or carriage return makes two atoms, `(` starts a list, `)` ends what is read, and every other character joins them into one atom |
| SExprCharacters.SeparatorsExactly | tools/z3-bench/sexpr.h:102-114 | two words come back as two atoms if and only if the character between them is one of those four |
| SExprTheorems.ParseElementsRefines | tools/z3-bench/sexpr.h:73-114 | on every text the character parser agrees with the token parser, yields only non-empty delimiter-free atoms and leaves a suffix |
| SExprTheorems.ParseDependsOnTokens | tools/z3-bench/sexpr.h:73-114 | layout does not matter: equal tokens give equal trees |
| SExprTheorems.ParseConserves | tools/z3-bench/sexpr.h:73-114 | every text is consumed up to its end or first unmatched `)`; the trees spell its tokens plus the missing closing parentheses |
| SExprTheorems.TokensAppend | tools/z3-bench/sexpr.h:102-114 | a text can be cut in front of a delimiter without changing its tokens |
| SExprPrinting.FormatContext.Format | tools/z3-bench/sexpr.h:121-133 | the recursive printer appends exactly the indented rendering of the tree |
| SExprLayout.PrintedLines | tools/z3-bench/sexpr.h:121-133 | the printed text is one line for each atom and parenthesis of the tree, in order |
| SExprLayout.LineAt | tools/z3-bench/sexpr.h:126-131 | line k is indented by two spaces for each list that is open before token k, a closing parenthesis by two less |
| SExprLayout.MarginsInside | tools/z3-bench/sexpr.h:126-131 | no line stands to the left of the tree |
| SExprLayout.PrintExample | tools/z3-bench/sexpr.h:121-133 | a concrete nested list and its printed text |
| SExprPrinting.PrintTokens | tools/z3-bench/sexpr.h:121-133 | a printed tree, at any indent and followed by anything, has the tokens of the tree |
| SExprPrinting.RoundTrip | tools/z3-bench/sexpr.h:73-133 | printing proper trees at any indents and parsing returns exactly them and reads everything |
| SExprPrinting.ReprintStable | tools/z3-bench/sexpr.h:73-133 | for arbitrary text, printing its trees and parsing again changes nothing |
| SExprPrinting.RoundTripExactly | tools/z3-bench/sexpr.h:121-133 | trees printed at any indents survive parsing if and only if all their atoms are non-empty and delimiter-free |
| SmtFilter.KeepLines | scripts/filter-out-get-model-smt-files.py:21-33 | the loop keeps exactly the lines that are not comments, blank or switched-off commands, in order |
| SmtFilter.Keeps | scripts/filter-out-get-model-smt-files.py:23-33 | one line is kept exactly when none of the tests drops it |
| SmtFilter.FilterText | scripts/filter-out-get-model-smt-files.py:17-34 | files that ask for a model give nothing; others give their kept lines joined by line feeds |
| SmtFilter.KeptLine | scripts/filter-out-get-model-smt-files.py:23-33 | a line that is not blank and does not start with `;` is kept as often as it occurs, unless it is `(push)` or `(pop)` without `-p` or `(check-sat)` without `-c`; all others are dropped |
| SmtFilter.KeptInOrder | scripts/filter-out-get-model-smt-files.py:21-33 | kept lines stay in order |
| SmtFilter.ContainsExactly | scripts/filter-out-get-model-smt-files.py:19 | the test for a model request holds if and only if the text can be cut around it |
| SmtFilter.SplitThenJoin | scripts/filter-out-get-model-smt-files.py:22-34 | joining the lines of a text restores it up to a final line feed; lines contain no line feed |
| SmtFilter.JoinTokens | scripts/filter-out-get-model-smt-files.py:34 | joining lines keeps their tokens apart |
| SmtFilter.SplitTokens | scripts/filter-out-get-model-smt-files.py:22 | splitting a text into lines loses no token |
| FilterTheorem.FilterPreservesMeaning | scripts/filter-out-get-model-smt-files.py:21-34 | the filtered text parses to the trees of the uncommented lines with exactly the dropped forms removed, if and only if every dropped line the parser reaches is at depth zero |
| FilterTheorem.RemovedForms | scripts/filter-out-get-model-smt-files.py:27-32 | each dropped top-level line has its own position among the trees, and its form stands there |
| FilterTheorem.CommandForms | scripts/filter-out-get-model-smt-files.py:27-32 | the forms of the three commands |
| FilterTheorem.UncommentedIsWholeText | scripts/filter-out-get-model-smt-files.py:23-24 | without comment lines the trees are those of the file itself |
| FilterTheorem.KeptShape | scripts/filter-out-get-model-smt-files.py:27-32 | dropping command lines changes neither the depth nor whether a parenthesis is unmatched |
| FilterTheorem.FormsRemovedOnlyIfAtTop | scripts/filter-out-get-model-smt-files.py:27-32 | if only the top-level forms went missing, no dropped line was nested |
| FilterTheorem.NestedCommandIsLost | scripts/filter-out-get-model-smt-files.py:27-28 | a concrete file with a nested `(push)`: its trees and those of the filtered text differ although no top-level form is removed |
| Rebindings.FindName | tools/z3-bench/fishhook.c:155-156 | the lowest index of a batch that names the symbol, or none does |
| Rebindings.Lookup | tools/z3-bench/fishhook.c:153-195 | the newest batch naming the symbol decides, at its lowest naming index |
| Rebindings.LinkeditExact | tools/z3-bench/fishhook.c:226-229 | the link-edit segment is found exactly when some segment has that name |
| Rebindings.SymtabExact | tools/z3-bench/fishhook.c:230-231 | the symbol table is found exactly when some command is one |
| Rebindings.LastDysymtabCounts | tools/z3-bench/fishhook.c:232-239 | the last dynamic symbol table command decides the number of indirect symbols |
| Rebindings.CommandsSlotsExact | tools/z3-bench/fishhook.c:249-266 | the slots that are visited are exactly those of lazy and non-lazy pointer sections of data segments |
| ImageTargets.VisitedSections | tools/z3-bench/fishhook.c:249-266 | a section is visited if and only if its type is 6 or 7 and its segment is `__DATA` or `__DATA_CONST`, in the order of the load commands |
| ImageTargets.SlotsInOrder | tools/z3-bench/fishhook.c:256-264 | the slots that are rebound are those of the visited sections, in that order |
| ImageTargets.TablesExactly | tools/z3-bench/fishhook.c:218-239 | an image has its tables if and only if it has a `__LINKEDIT` segment, a symbol table, and a last dynamic symbol table with indirect symbols |
| ImageTargets.SkippedImages | tools/z3-bench/fishhook.c:202-216 | which images are skipped, by path; all others with tables have the slots of their visited sections |
| ImageTargets.SectionSlotExactly | tools/z3-bench/fishhook.c:139-152 | the address of a slot and its symbol through the indirect table, with the three special entries, without its first character |
| ImageTargets.ConstSlotIsRebound | tools/z3-bench/fishhook.c:253-264 | a run in which a slot of either segment and either section type is rebound |
| ImageTargets.LoadableImages | tools/z3-bench/fishhook.c:141-152 | what the engine takes for granted about the tables of an image |
| Rebindings.TargetsLayout | tools/z3-bench/fishhook.c:139-142 | under the layout assumption the slots of all images are distinct and recorded at load |
| Passes.PassFrame | tools/z3-bench/fishhook.c:144-197 | a pass makes one request per decided slot, loses no word, and changes only slots and replaced cells |
| Passes.PassExactly | tools/z3-bench/fishhook.c:144-197 | after a pass each slot holds the deciding replacement if its own request succeeded, and its previous word otherwise |
| Passes.PassOverSettled | tools/z3-bench/fishhook.c:159-191 | a pass over slots that already hold their replacement changes no word, even if requests fail |
| Passes.PassIdempotent | tools/z3-bench/fishhook.c:144-197 | running a successful pass again changes no slot and no replaced cell |
| Requests.WordsFollowRequests | tools/z3-bench/fishhook.c:159-191 | in every run, whichever requests succeed, every word of an image is the replacement of the last request for its address that succeeded, or the word it was loaded with when none did; requests are counted exactly |
| Requests.RequestsForSlots | tools/z3-bench/fishhook.c:144-175 | every request of a run is for a target slot of an image loaded before it |
| Precedence.LastRequestIsForNewest | tools/z3-bench/fishhook.c:153-191 | in every run the last request for a slot is for the newest rebinding of its symbol, lowest index first; there is none if no rebinding names it |
| Precedence.LastRequestGranted | tools/z3-bench/fishhook.c:168-190 | whatever happened to other requests, a slot whose last request succeeded follows the newest rebinding |
| Precedence.LaterRebindingsTakePrecedence | tools/z3-bench/fishhook.c:284-300 | over every run whose requests so far succeeded the callback is registered exactly once, every slot of every image follows the newest batch, and all other image words are as loaded |
| Precedence.SlotHoldsNewest | tools/z3-bench/fishhook.h:50-57 | for one slot of one image whose own last request succeeded: newest batch, lowest index; the loaded word if no rebinding names its symbol |
| Precedence.OtherWordsUntouched | tools/z3-bench/fishhook.c:202-216 | in every run, whichever requests succeed, words outside the target slots, and so skipped images, are as loaded |
| Precedence.LastRegisteredDecides | tools/z3-bench/fishhook.c:155-191 | in any run, a slot whose own last request succeeded holds the replacement registered last in the newest batch naming its symbol if and only if it equals the one registered first there |
| Precedence.PromiseKeptExactly | tools/z3-bench/fishhook.h:50-57 | right after a call whose own requests succeed, in every run and whatever happened to earlier requests, all slots named in the batch hold its last replacement for their symbol, if and only if the first and last replacements of each symbol in the batch agree |
| Precedence.DuplicateInOneCall | tools/z3-bench/fishhook.c:155-156 | a concrete run, one image loaded and one call naming its symbol twice, after which the slot holds the first replacement |
| SavedOriginals.EveryCellHasAWriter | tools/z3-bench/fishhook.c:159-191 | in every run, whichever requests fail and whatever cells are shared, each saved binding was saved by some rebinding and is an original binding of its symbol or the replacement of an older rebinding of it |
| SavedWords.StepSaves | tools/z3-bench/fishhook.c:159-161 | where a rebinding with a cell decides and the slot holds something else, the cell ends up with the word of the slot, whether or not the request succeeds and whatever the cell held |
| SavedWords.StepSavesNothing | tools/z3-bench/fishhook.c:159-161 | no other step changes the cell |
| SavedWords.PassSaves | tools/z3-bench/fishhook.c:144-197 | after a pass a cell holds the word that its last saving slot held before the pass, or what it held before if none saves |
| SavedWords.CellHoldsLastSave | tools/z3-bench/fishhook.c:159-161 | after every run, whichever requests succeed and however cells are shared, a cell holds the word of the last slot at which a rebinding with that cell decided while the slot held something else; without any such slot it has never been written |
| SavedOriginals.SavedBindingsAreGood | tools/z3-bench/fishhook.c:159-191 | in every run, whichever requests fail, if no cell is shared, every saved binding leads to an original binding of the same symbol through strictly older rebindings |
| SavedOriginals.NextIsOlder | tools/z3-bench/fishhook.c:159-161 | with distinct replacements, a saved binding that is a replacement belongs to a strictly older rebinding, unless a cell is lent for a rebinding that is not older |
| SavedOriginals.NextIsSameSymbol | tools/z3-bench/fishhook.c:159-161 | if no cell is shared at all, it belongs to an older rebinding of the same symbol |
| SavedOriginals.ChainsDescend | tools/z3-bench/fishhook.c:159-161 | under the same condition as NextIsOlder, chains of saved bindings never repeat and are no longer than the list of batches |
| SavedOriginals.UncrossedChainEnds | tools/z3-bench/fishhook.c:159-161 | and from every saved binding a descending chain reaches an original binding, or a rebinding that asked for none to be saved |
| SavedOriginals.ChainToOriginal | tools/z3-bench/fishhook.c:159-161 | if no cell is shared, that chain stays with one symbol and ends at an original binding of it, or at a rebinding that asked for none to be saved |
| SavedOriginals.SaveKeepsWriters | tools/z3-bench/fishhook.c:159-161 | saving the current binding leaves every saved binding explained by its writer |
| SavedOriginals.WriteKeepsWriters | tools/z3-bench/fishhook.c:172-190 | so does writing the replacement |
| SavedOriginals.DistinctCellsUncrossed | tools/z3-bench/fishhook.c:159-161 | cells of their own are a special case of the condition under which saved bindings descend |
| SharedCells.PointsExactly | tools/z3-bench/fishhook.c:159-161 | for distinct replacements, some run of these batches ends with the replacement of q in the cell of p if and only if a later rebinding of the symbol of q shares that cell, both deciding in their batches |
| SharedCells.DescentExactly | tools/z3-bench/fishhook.c:159-161 | in every run of these batches all saved bindings lead to strictly older rebindings, if and only if no rebinding saves in the cell of another one a replacement that is not older than that one |
| SharedCells.SharedCellCycles | tools/z3-bench/fishhook.c:159-161 | two calls for one symbol that share a cell: a run, given explicitly, ends with the saved binding of the first pointing at itself |
| SharedCells.SharedCellMayDescend | tools/z3-bench/fishhook.c:159-161 | sharing a cell is not enough to break descent: two symbols that share one |
| Fishhook.ListFrame | tools/z3-bench/fishhook.c:92-107 | writes at or above the bump pointer leave the list and its batches alone |
| Fishhook.ListDescends | tools/z3-bench/fishhook.c:84-107 | following `next` strictly descends through the heap, so the list is acyclic and its entries are disjoint |
| Fishhook.BlocksDisjoint | tools/z3-bench/fishhook.c:66-78 | any sequence of allocations succeeds exactly while it fits, and its blocks are disjoint, in order and inside the heap |
| Fishhook.Process.MallocEach | tools/z3-bench/fishhook.c:70-78 | calling the allocator for any sequence of sizes gives exactly those blocks, or aborts when they do not fit |
| Fishhook.Process.Malloc | tools/z3-bench/fishhook.c:70-78 | aborts exactly when the block does not fit, otherwise advances by its size |
| Fishhook.NewEntryOk | tools/z3-bench/fishhook.c:92-107 | an entry written behind a list, with its copied array, extends the log by that batch and keeps every older batch |
| Fishhook.Process.PrependRebindings | tools/z3-bench/fishhook.c:92-107 | aborts exactly when entry and array do not fit; otherwise both lie in blocks of their own, the list has one more batch, a copy of the argument, and nothing below the old bump pointer changed |
| Fishhook.Process.CopyBatch | tools/z3-bench/fishhook.c:102 | the copy holds every rebinding of the argument and touches nothing below it |
| Fishhook.Process.FindInEntry | tools/z3-bench/fishhook.c:155-156 | stops at the first rebinding of a batch that names the symbol |
| Fishhook.Process.FindRebinding | tools/z3-bench/fishhook.c:153-195 | the walk along the linked list, newest batch first, ends at the rebinding that decides the symbol, or finds none exactly when no batch names it |
| Fishhook.Process.WriteSlot | tools/z3-bench/fishhook.c:157-190 | saves the old binding unless it is the replacement already, then writes only if the page became writable |
| Fishhook.Process.RebindSlot | tools/z3-bench/fishhook.c:150-196 | one slot takes exactly the step of the state machine: save, request, write |
| Fishhook.Process.PerformRebindingWithSection | tools/z3-bench/fishhook.c:139-198 | the loop over a section is a pass over its slots |
| Fishhook.Process.RebindSection | tools/z3-bench/fishhook.c:256-264 | only lazy and non-lazy pointer sections are rebound |
| Fishhook.Process.RebindSegment | tools/z3-bench/fishhook.c:256-264 | the loop over the sections of a data segment is a pass over their slots, in order |
| Fishhook.Process.FindTables | tools/z3-bench/fishhook.c:218-239 | the first pass over the load commands finds the tables exactly when they are there |
| Fishhook.Process.RebindCommands | tools/z3-bench/fishhook.c:249-266 | the second pass, led by the byte cursor, is a pass over the slots of all data segments |
| Fishhook.Process.RebindSymbolsForImage | tools/z3-bench/fishhook.c:202-267 | an image is rebound by one pass over its target slots, none if it is skipped |
| Fishhook.LayOutFaithful | tools/z3-bench/fishhook.c:223-225 | the byte cursor at the prefix sum of the command sizes reads each command |
| Fishhook.OffsetsExactly | tools/z3-bench/fishhook.c:223-225 | the first load command is at byte 32, each other one behind its predecessor |
| Fishhook.VisitsExact | tools/z3-bench/fishhook.c:249-266 | exactly the pointer sections of `__DATA` and `__DATA_CONST` are visited, each once, in order |
| Fishhook.Process.Sweep | tools/z3-bench/fishhook.c:294-297 | the callback runs for every loaded image in order |
| Fishhook.Process.RebindSymbols | tools/z3-bench/fishhook.c:284-300 | aborts exactly when the heap is full; otherwise takes the state-machine step for the batch, registering the callback on the first call only |
| Fishhook.Process.RebindSymbolsImage | tools/z3-bench/fishhook.c:273-282 | rebinds one image from a private list; the global list keeps every batch |
| Fishhook.Process.LoadImage | tools/z3-bench/fishhook.c:269-271 | a new image is rebound with the list as it is at that moment, once per registration |
| Execution.Perform | tools/z3-bench/fishhook.c:273-300 | one call on a process is one step on values; it fails exactly when its blocks do not fit, and then changes nothing but the bump pointer |
| Execution.Execute | tools/z3-bench/fishhook.c:284-300 | a process driven through any sequence of calls and loads is the run on values; its list holds exactly the batches of the global calls; it gets to the end exactly when all blocks fit the heap |
| Execution.PrivateCallsKeepLog | tools/z3-bench/fishhook.c:273-282 | calls that rebind one image from a private list change neither the global list nor the images nor the registration |
| Execution.PrivateCallEffect | tools/z3-bench/fishhook.c:273-282 | such a call makes the slots of its image follow its own list only; other words but its replaced cells stay |
| Execution.GlobalCallsAreRun | tools/z3-bench/fishhook.c:284-300 | without such calls, a sequence of calls is a run of the state machine |
| IndexBlocks.Blocks.constructor | tools/z3-bench/z3-bench.cpp:98-112 | the division is valid for every non-empty range and positive count, and the zero-size fallback is dead |
| IndexBlocks.BlockLength | tools/z3-bench/z3-bench.cpp:120-143 | blocks are non-empty and exactly the first `remainder` ones are one larger |
| IndexBlocks.BlocksContiguous | tools/z3-bench/z3-bench.cpp:120-143 | the blocks run without gap from the first index to the last |
| IndexBlocks.BlocksPartition | tools/z3-bench/z3-bench.cpp:120-143 | every index of the range lies in exactly one block and no other index in any |
| IndexBlocks.LargerBlocksCount | tools/z3-bench/z3-bench.cpp:103-104 | the number of larger blocks is the remainder |
| Latch.ApplyKeepsInv | tools/z3-bench/z3-bench.cpp:62-79 | what every step of the caller and of a task keeps |
| Latch.CounterCountsUnreleased | tools/z3-bench/z3-bench.cpp:65-75 | in every interleaving the counter is the number of unreleased tasks, never underflows, and is zero when `wait` returns |
| Latch.NoLostWakeup | tools/z3-bench/z3-bench.cpp:65-75 | until `wait` returns some non-spurious step is enabled; a blocked caller has an outdated count exactly when a notification that must unblock it is still to come |
| Latch.EveryoneCanStep | tools/z3-bench/z3-bench.cpp:186-198 | in every state each task under way and the caller can take their next step, and a blocked caller may wake up spuriously |
| Latch.StaleNotificationMaySleep | tools/z3-bench/z3-bench.cpp:65-68 | a concrete run in which a notification leaves the caller asleep, because its decrement was already seen |
| Latch.StepDecreases | tools/z3-bench/z3-bench.cpp:69-75 | every step but a spurious wakeup decreases a measure |
| Latch.RunsAreBounded | tools/z3-bench/z3-bench.cpp:186-198 | a run of n tasks with k spurious wakeups has at most 30 n + 3 + 5 k steps |
| Latch.MaximalRunReturns | tools/z3-bench/z3-bench.cpp:186-198 | a run that cannot continue has returned from `wait` with all tasks finished |
| Latch.EveryIndexExactlyOnce | tools/z3-bench/z3-bench.cpp:186-198 | when the loop returns every index was handed to the body exactly once and every body has finished |
| Profile.ApplyKeepsShared | bin/profile.ml:70-77 | racy reads and writes of the stack never bring in another record |
| Profile.ApplyKeepsBoxes | bin/profile.ml:93-121 | a compare-and-set succeeds only if the cell still holds the very value that was read |
| Profile.Linearises | bin/profile.ml:79-122 | each accumulator is the fold of the committed differences in commit order, for any addition; a completed call contributes exactly once to each |
| Profile.CommitAdds | bin/profile.ml:92-121 | a successful compare-and-set adds the call's own difference for that accumulator to its value, on the right; the other accumulators stay |
| Profile.ContributesToAllFive | bin/profile.ml:92-121 | a completed call has contributed once to each of five accumulators |
| Profile.CommitsExtend | bin/profile.ml:92-121 | a longer run only adds commits at the end |
| Profile.CompletedCallsComeFirst | bin/profile.ml:79-122 | the commit order respects real time: a call completed before another reads the stack comes before it in every fold |
| Profile.StackRaceHarmless | bin/profile.ml:68-77 | every value of the stack is the one record of `start`; the counter is the number of increments performed |
| Profile.AnyValueMayBeRead | bin/profile.ml:70-71 | a call may read any value written to the stack so far |
| Profile.ValidPrograms | bin/profile.ml:49-66 | six cells of its own and five differences per call are all that is assumed of a record |
| Profile.FailuresBounded | bin/profile.ml:92-121 | with n calls at most n(n-1)/2 compare-and-sets fail on each accumulator, at every moment |
| Contention.BoundAttained | bin/profile.ml:92-121 | the bound is exact: for every number of calls of `finish_smt`, some run has n(n-1)/2 failures on each accumulator |
| Profile.TotalFailures | bin/profile.ml:92-121 | the bound over all five accumulators together |
| Profile.StepsAccounted | bin/profile.ml:70-122 | steps taken plus steps left equal the initial work plus two per failure |
| Profile.RunsAreBounded | bin/profile.ml:92-121 | no run has more than 12 n + 3 m + 5 n (n-1) steps, so all retry loops end |
| Profile.UnfinishedCanStep | bin/profile.ml:92-121 | every unfinished call can take a step |
| NoAllocStdio.WriteSizeToStrbuf | tools/z3-bench/noalloc-stdio.c:62-74 | completes exactly when the width is positive and the value below that power of ten; the field is the numeral padded with spaces and nothing else is written |
| NoAllocStdio.FieldReadsBack | tools/z3-bench/noalloc-stdio.c:62-74 | the field decodes to the value and has no leading zero except for zero itself |
| NoAllocStdio.DigitsDecode | tools/z3-bench/noalloc-stdio.c:67-68 | the numeral decodes to its value |
| NoAllocStdio.DigitsCanonical | tools/z3-bench/noalloc-stdio.c:67-69 | numerals consist of digits and start with a zero only for zero |
| NoAllocStdio.DigitAt | tools/z3-bench/noalloc-stdio.c:67 | the digit k places from the end is that of v / 10^k |
| NoAllocStdio.DigitsFit | tools/z3-bench/noalloc-stdio.c:66-73 | a numeral fits a width exactly when the value is below that power of ten |
| NoAllocStdio.NibbleRoundTrip | tools/z3-bench/noalloc-stdio.c:52-60 | every nibble reads back from its hexadecimal digit |
| NoAllocStdio.NibbleAt | tools/z3-bench/noalloc-stdio.c:52-60 | sixteen digits that read back as an address are its nibbles in lower case, highest first |
| NoAllocStdio.WritePtrToStrbuf | tools/z3-bench/noalloc-stdio.c:76-93 | writes `0x` and sixteen hexadecimal digits that read back as the address, and nothing else |
| BranchScan.DecodesSignedImmediate | tools/z3-bench/dyld-interposing.c:101-103 | the shifts compute four times the signed 26-bit immediate |
| BranchScan.BlOpcode | tools/z3-bench/dyld-interposing.c:94-99 | BL is recognised by the six bits 100101 |
| BranchScan.EncodeDecode | tools/z3-bench/dyld-interposing.c:94-103 | a displacement survives encoding and decoding if and only if it is word-aligned and within range |
| BranchScan.DecodeEncode | tools/z3-bench/dyld-interposing.c:94-103 | encoding the decoded offset gives a BL instruction back |
| BranchScan.FindBranchTarget | tools/z3-bench/dyld-interposing.c:105-121 | the scan stops at the first BL and computes the address it branches to |

## Left out

- Precedence.LaterRebindingsTakePrecedence: claimed for runs of `rebind_symbols` and image loads in which the requests made so far succeed (Requests.WordsFollowRequests covers the others) and images, slots and replaced cells do not overlap; `rebind_symbols_image` patches one image from a private list and is not part of these runs.
- SavedOriginals.SavedBindingsAreGood: like precedence, for runs without `rebind_symbols_image`, with one cell per rebinding; requests may fail.
- SharedCells.DescentExactly: for replacements told apart from each other; which cycles through several rebindings some run can build is not characterised beyond descent and a rebinding pointing at itself.
- Fishhook.Process.Malloc: offsets are natural numbers, so a pointer that wraps around is not modelled.
- Fishhook.Process.RebindSymbolsForImage: load commands have a positive size and the tables cover the pointer sections; malformed images, raw Mach-O bytes, slide arithmetic, `dladdr` and pointer authentication are not modelled.
- Fishhook.Process.LoadImage: image unloading does not occur, and the order in which the loader maps and announces several images at once is sequential.
- Latch.EveryIndexExactlyOnce: each detached task is executed exactly once by the pool; memory orderings weaker than sequential consistency and the lifetime of the latch on the caller's stack are not modelled.
- IndexBlocks.Blocks.constructor: indices are unbounded integers, so narrowing conversions of very large ranges are not modelled; a requested count of zero is excluded because the caller substitutes the pool's thread count.
- Profile.Linearises: addition is any operator; the times themselves are parameters, and `finish` and `start` mark the limits of the modelled interval.
- SmtFilter.FilterText: lines are separated by line feeds only; file walking and writing are not modelled.
- SExprParsing.SExprParser.Parse: characters are single code units; comments, strings and quoted symbols of SMT-LIB are not recognised by this parser either.
- NoAllocStdio.WriteSizeToStrbuf: the value is any natural number, which covers the machine word; a width of zero aborts without the pointer in front of the buffer being modelled.
- BranchScan.FindBranchTarget: code without a BL instruction, which the original would scan past its end, is excluded by the precondition.
- `junk/fishhook.c` is the same engine with the system allocator and no skipped images.
- `wait_on_n_tasks` is the same join without blocks.
- Z3, its bindings, the thread pool, the interposition tables and the thread-start hooks are not part of this model.
