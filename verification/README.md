# Verified model of the repository's CI tooling

This project models, in Dafny 4.11, the parts of the repository's own tooling that decide what CI runs and what
counts as evidence, and proves what those tools promise:

- the local CI scheduler (`tools/ci_local.py`): expansion of the justfile's recipes to an ordered gate list,
  validation of that list, and execution with serial short-circuit and draining parallel groups;
- the text checkers of the same justfile (`tools/justfile_contract.rs`, `tools/ci_hygiene.rs`), and their agreement
  with the scheduler;
- bounded admission of parsed workflow files (`finiteGraph` in `tools/ci_workflow_security.ts`);
- the scanners of `tools/product_status.rs`, `tools/markdown_contract.rs` and `tools/mermaid_docs.rs`: comment and
  string stripping, JSON skipping, Cargo metadata, inline code, Mermaid ranges;
- routing and accounting: `tools/ci_inputs.py`, `tools/ci_attempt_metrics.py` and the instruction budget of
  `tools/agent_context.rs`.

`dafny verify dfyconfig.toml` checks everything.

## Layout

| file | subject |
|---|---|
| `Common.dfy`, `Lines.dfy`, `Utf8.dfy` | options and results, lines and white space, UTF-8 as an automaton |
| `Recipes.dfy`, `Inventory.dfy`, `Scheduler.dfy`, `Execution.dfy` | recipe table, validation, execution as a step relation, and what a run does, said of its events, the table and the exit codes |
| `Justfile.dfy`, `WrittenWords.dfy`, `Expansion.dfy` | the justfile as the text checkers read it, the words a line is written with, expansion and reachability |
| `Declarations.dfy`, `Visibility.dfy` | the justfile as `just` reads it, and which dependencies the checkers follow |
| `SerialGates.dfy`, `SerialAgreement.dfy`, `SerialExamples.dfy` | the serial-gate rule, that the scheduler guards the same gates, and justfiles that escape it |
| `Agreement.dfy`, `TextAgreement.dfy`, `ExactReach.dfy`, `ExactAgreement.dfy` | agreement of the checkers' expander with the scheduler's, and exactly when it holds |
| `FiniteGraph.dfy` | graph admission |
| `CommentStripper.dfy`, `SourcePieces.dfy`, `SourceReading.dfy` | stripping, source text as lexical pieces, and how every source is made of them |
| `Json.dfy`, `JsonGrammar.dfy`, `JsonExactly.dfy` | the JSON skipper, JSON as written, and that the skipper accepts just that |
| `CargoMetadata.dfy`, `MetadataDocument.dfy` | package names of a Cargo metadata document |
| `InlineCode.dfy`, `CodeSpans.dfy` | the inline-code removers, and code spans as CommonMark reads them |
| `Mermaid.dfy`, `MermaidEdits.dfy` | Mermaid blocks, and which edits select rendering |
| `AttemptMetrics.dfy`, `RunAnalysis.dfy`, `RunReport.dfy` | attempts of a workflow run, and what the report says of the records |
| `InputRouter.dfy`, `RouterEdges.dfy`, `RouterOutput.dfy` | gate selection, why each key is on, and its printing and reading back |
| `ContextBudget.dfy` | instruction bytes along directory chains |

## How the code is modelled

- Code that works step by step is a method with loops (or a class whose fields it updates), proved equal to a
  specification function or to a stated property; the properties that span operations are lemmas.
- A thread pool is a step relation over tasks, so a run is any interleaving of starts and exits. What a gate's process
  exits with is an arbitrary function of the gate; what the router selected is an arbitrary predicate.
- Refusals (exceptions, `Err`) are result values. Their wording is not modelled. Where an iteration order only decides
  which refusal is reported (a dictionary, a sorted set of packages), the model picks in any order.
- Glob matching, Git, the file system and the clock are parameters. Clocks are whole milliseconds.
- Scanners that work on bytes are modelled on bytes; `str::from_utf8` is the automaton of `Utf8.dfy`. Scanners that work
  on lines take the lines.
- What `just` itself reads in a justfile is modelled line by line in `Declarations.dfy`: a header starts in the first
  column with a name, perhaps after `@`, goes on with parameters, and ends at the first colon outside strings,
  parentheses and comments; a dependency in parentheses is its first word. Lemmas that compare this reading with the
  checkers' ask for lines that `just` takes (`Declarations.WellFormed`): no recipe declared twice, dependencies that are
  names or parenthesised, a `parallel` attribute above a recipe, indented commands, no line that opens with a
  parenthesis, and names that end at a space or the colon.

## What was found

- An accepted justfile can hold a `[parallel]` recipe that depends on a serial gate. The check finds a recipe only where
  its name is directly followed by the colon, and takes a dependency in parentheses for a recipe of that spelling, so
  neither `batch mode: test` nor `batch: (test)` is followed to `test`, nor any longer chain with such a step.
  `SerialExamples.AcceptedThoughSerial` gives two such files. `SerialGates.AcceptedKeepsOffExactly` states that an
  accepted file keeps its parallel recipes off serial gates if and only if no chain to a serial gate has such a step, and
  `SerialGates.PlainAcceptedExactly` that the check is exact on files that write plainly whatever a parallel recipe
  reaches. The scheduler's own validation reads the dump of `just`, so the executed inventory is not affected.
- For the same reason the two expanders disagree on some justfiles that `just` accepts: a group that names a gate in
  parentheses expands to the gate for the scheduler and to a name that is no recipe for the checkers
  (`ExactAgreement.ParenthesesDisagree`). `ExactAgreement.InventoryAgreesExactly` and `ReachAgreesExactly` state exactly
  when they agree.
- The executor refuses a router output exactly when a consumer of the contract lists the header's name `local_contract`
  among its outputs or a gate is called `contract`: `RouterOutput.ReadableExactly`, with a contract of that kind in
  `RouterOutput.HeaderTakenIsRefused`.
- Stripping keeps line numbers exactly when no string contains an escaped newline: `SourcePieces.LinesSurviveExactly`,
  with a failing text in `SourcePieces.EscapedNewlineIsLost`.
- The inline-code removers give up at the first run of backticks that nothing closes, where CommonMark reads on. They
  agree with it exactly when no two runs after that one have the same width: `CodeSpans.FollowsCommonMarkExactly`, with a
  line where they differ in `CodeSpans.LaterSpanStays`.

## Model

| member | source | states |
|---|---|---|
| Recipes.ComputeLeaves | tools/ci_local.py:20-33 | the recursive expander with its path tuple computes the expansion of the recipe, including which refusal comes first |
| Recipes.LeavesSucceedExactly | tools/ci_local.py:20-33 | expansion succeeds if and only if every explored dependency chain meets only defined, argument-free recipes and none twice |
| Recipes.ListedExactly | tools/ci_local.py:20-33 | the expansion lists a recipe if and only if it has a body and an explored dependency chain leads to it |
| Recipes.GatesHaveBodies | tools/ci_local.py:26-33 | every listed gate is a defined recipe with a body |
| Recipes.ThroughBodiesLists | tools/ci_local.py:20-33 | descending through bodies never loses a gate of the plain expansion |
| Inventory.CheckPrerequisites | tools/ci_local.py:60-67 | passes exactly when every prerequisite of every gate expands to listed gates, and otherwise names a true culprit |
| Inventory.CheckGate | tools/ci_local.py:63-67 | passes exactly when every dependency of the gate expands to listed gates |
| Inventory.GroupIsSafeExactly | tools/ci_local.py:71-74 | expanding a parallel recipe through bodies finds no exclusive gate if and only if along every dependency chain from it, bodies and all, recipes are clean and distinct and none with a body is exclusive |
| Inventory.CheckGroup | tools/ci_local.py:71-74 | passes exactly when a parallel recipe is safe in that sense: a statement about the chains of the table |
| Inventory.ValidateInventory | tools/ci_local.py:56-75 | accepts exactly the inventories that expand, repeat no gate, list all prerequisites, end in the Rust suffix and keep parallel recipes off exclusive gates along every chain, through bodies and all; returns the expansion; every refusal is true of the table |
| Inventory.EveryPrerequisiteIsListed | tools/ci_local.py:56-67 | in an accepted inventory every recipe on any dependency chain, through bodies and body cycles, is defined, and listed if it has a body |
| Scheduler.UnfoldIsFlat | tools/ci_local.py:81-98 | the call tree of the executor lists the gates in the order of the expansion |
| Scheduler.StepAccounts | tools/ci_local.py:81-98 | every step of every thread keeps the outcome, uses up work, and accounts exactly for the gate it starts |
| Scheduler.Progress | tools/ci_local.py:81-98 | no state but a returned one is stuck |
| Scheduler.RanWithinSelected | tools/ci_local.py:84-86 | only selected gates run, each at most once per listing, and all of them when nothing fails |
| Scheduler.RunsThroughFirstFailure | tools/ci_local.py:87-98 | all selected gates up to and including the first failing one in list order run |
| Scheduler.EverySchedule | tools/ci_local.py:81-98 | for every tree, selection, exit-code function and interleaving: runs are bounded and never stuck, return the exit code of the first failing selected gate in list order or 0, start the same gates, and on 0 each selected gate exactly once |
| Scheduler.ExecuteReturnsFlatScan | tools/ci_local.py:78-100 | the same for the executed recipe table against the validated list; unselected gates never start |
| Scheduler.TracksStep | tools/ci_local.py:87-98 | each step keeps a state in correspondence with its tree and with the gates that have exited 0 |
| Scheduler.AcceptedIsSeparated | tools/ci_local.py:68-74 | in an accepted inventory no parallel node of the call tree holds an exclusive gate |
| Scheduler.ExclusiveRunsAlone | tools/ci_local.py:87-98 | a running exclusive gate is the only running gate and all selected gates before it have exited 0 |
| Scheduler.ExclusiveGates | tools/ci_local.py:56-100 | in every interleaving of an accepted inventory, while a Rust-suffix gate or `typescript` runs nothing else runs, and every selected gate listed earlier has exited 0 |
| Execution.ExecuteReturnsFirstFailure | tools/ci_local.py:78-100 | every run of an accepted inventory that returns 0 has only passing selected gates, and one that returns another code has a selected gate that exits with that code after selected gates that all pass |
| Execution.StartsExactly | tools/ci_local.py:81-98 | when a run returns, a gate has started once if the inventory leads to it, it is selected and no selected failing gate precedes it in a serial group of the table, and otherwise never |
| Execution.SerialWaits | tools/ci_local.py:93-97 | in every interleaving a gate starts only after every selected gate that precedes it in a serial group of the table has exited 0 |
| Execution.MembersRunFreely | tools/ci_local.py:88-92 | every member of a parallel group that has not returned can take a step, whatever the others do |
| Execution.FinishesSayCodes | tools/ci_local.py:84-86 | a gate that finishes exits with its own code |
| Execution.ExclusiveInEvents | tools/ci_local.py:56-100 | in every interleaving, while a started exclusive gate has not finished no other gate is started and unfinished, and every selected gate listed before it has exited 0 |
| Justfile.ScanDeclarationWords | tools/justfile_contract.rs:94-138 | the one-pass scanner with start, quote, escape and depth returns the words of the declaration |
| Justfile.SplitUndoesJoin | tools/justfile_contract.rs:91-138 | splitting undoes joining with spaces for words that close their quotes and parentheses, in both delimiter modes, and a trailing comment changes nothing |
| Justfile.SplitIsIdempotent | tools/justfile_contract.rs:94-138 | on every line, splitting the rejoined words gives the same words |
| Justfile.DeclarationIsRead | tools/justfile_contract.rs:65-89 | a declaration written as name, colon, words and comment is read as exactly those words without `&&` |
| WrittenWords.LineIsRead | tools/justfile_contract.rs:94-138 | a line of separators, words and a comment is read as its words, where words are made of characters, quoted strings with their escapes and nested parentheses, and an attribute list is also separated by commas and brackets |
| Justfile.GraphOf | tools/justfile_contract.rs:65-159 | the finite graph holds exactly the recipes whose dependencies can be read, with the entry redirect, and exactly the recipes without a body |
| Expansion.Expander.ExpandInto | tools/justfile_contract.rs:33-63 | the expander restores its stack and appends exactly the expansion of the dependencies |
| Expansion.Expander.ExpandOneInto | tools/justfile_contract.rs:40-62 | one turn of the loop: push, expand the members and pop, or append a leaf |
| Expansion.DependencyGates | tools/justfile_contract.rs:16-31 | returns the expansion below the recipe, or nothing when it is not declared |
| Expansion.GatesAreReachable | tools/justfile_contract.rs:13-63 | on any graph, cyclic or not, the list through bodies holds exactly the recipes reached by one or more dependencies |
| SerialGates.ParallelRecipes | tools/ci_hygiene.rs:473-495 | returns exactly the leading names of the lines under an attribute block that says `parallel` |
| SerialGates.CheckEntry | tools/ci_hygiene.rs:519-532 | passes exactly when the entry is declared, not parallel, and ends with each serial Rust gate exactly once |
| SerialGates.SerialMember | tools/ci_hygiene.rs:533-543 | a recipe's list through bodies names a serial gate exactly when the recipe reaches one |
| SerialGates.CheckSerialRustGates | tools/ci_hygiene.rs:518-543 | accepts exactly when both entries are serial and no parallel recipe reaches a serial gate along any chain |
| SerialGates.HygieneAdmits | tools/ci_hygiene.rs:518-543 | accepts exactly the justfiles whose entries end serially and are not parallel and in which no parallel recipe reaches a serial gate along the dependencies the check reads |
| Declarations.DeclaresExactly | tools/justfile_contract.rs:140-146 | the header lines the checkers find for a name are exactly those in which `just` reads that name directly followed by the colon |
| Declarations.HeaderExactly | tools/justfile_contract.rs:140-146 | a header is found exactly where the recipe is declared that way, and then it is the recipe's own line |
| Declarations.ReadsExactly | tools/justfile_contract.rs:67-92 | for a followed header the checkers read the words of the recipe, or of the inventory an entry hands over, and for any other none |
| Visibility.EdgeExactly | tools/justfile_contract.rs:67-92 | a dependency is an edge of the checkers' graph exactly when the header is followed and the word is written bare |
| Visibility.ReachesExactly | tools/justfile_contract.rs:13-92 | the checkers reach a recipe exactly along the declared chains whose every step they read |
| SerialGates.CaughtExactly | tools/ci_hygiene.rs:533-543 | a parallel recipe is caught exactly when some declared chain from it to a serial gate is read at every step |
| SerialGates.AcceptedKeepsOffExactly | tools/ci_hygiene.rs:518-543 | in an accepted justfile no parallel recipe depends on a serial gate if and only if no chain to a serial gate has a step the check does not read |
| SerialGates.PlainCaughtExactly | tools/ci_hygiene.rs:533-543 | where all that a parallel recipe reaches is written with the colon after the name and without parentheses, it is caught if and only if it depends on a serial gate |
| SerialGates.PlainAcceptedExactly | tools/ci_hygiene.rs:518-543 | such a justfile is accepted if and only if its entries are serial and no parallel recipe depends on a serial gate along any declared chain |
| SerialAgreement.EntryExactly | tools/ci_hygiene.rs:519-532 | an entry is serial if and only if its gates are others, none of them a serial Rust gate, and then the serial Rust gates in order |
| SerialAgreement.ParallelAboveExactly | tools/ci_hygiene.rs:473-495 | a recipe is parallel exactly when an unbroken block of attribute lines above it has one that says `parallel` |
| SerialAgreement.BodyBelowExactly | tools/justfile_contract.rs:148-159 | a recipe has a body exactly when the next line that is not blank begins with a space or a tab |
| SerialAgreement.SerialIsExclusive | tools/ci_hygiene.rs:533-537 | the gates the checker calls serial are exactly those the scheduler runs alone |
| SerialAgreement.GuardsAgree | tools/ci_local.py:68-74 | below a parallel recipe that expands, the scheduler's check passes if and only if no declared chain ends in a gate that the checker calls serial |
| SerialAgreement.AcceptedIsSafe | tools/ci_local.py:68-74 | a plainly written justfile that the checker accepts passes the scheduler's check of every such group |
| SerialExamples.HiddenEscapes | tools/ci_hygiene.rs:533-543 | for every list of gates that closes serially: a whole justfile whose parallel recipe depends on a serial gate is accepted whenever that dependency is in parentheses or the header is not followed |
| SerialExamples.ParenthesesEscape | tools/justfile_contract.rs:94-138 | a whole justfile that is accepted although its parallel recipe depends on a serial gate in parentheses, for every such gate |
| SerialExamples.ParameterEscapes | tools/justfile_contract.rs:140-146 | the same for a parallel recipe with a parameter |
| SerialExamples.AcceptedThoughSerial | tools/ci_hygiene.rs:533-543 | two concrete accepted justfiles, with `batch: (test)` and with `batch mode: test` |
| Agreement.InventoryAgrees | tools/justfile_contract.rs:33-63 | for a recipe without a body whose expansion succeeds, the text expander lists the scheduler's gates in order, provided text and dump agree on the recipes the expansion explores |
| Agreement.EntryAgrees | tools/justfile_contract.rs:70-82 | the text expansion of `ci` or `ci-full` is the scheduler's list for the inventory the entry hands to the executor |
| Agreement.ReachAgrees | tools/justfile_contract.rs:33-63 | the reached recipes that have bodies are the scheduler's list through bodies, in order, with the entry redirect as an edge of the table |
| Agreement.RedirectUnreached | tools/justfile_contract.rs:70-82 | where no redirected entry is reached, that list is the one over the dumped table itself |
| TextAgreement.TextInventoryAgrees | tools/ci_local.py:20-33 | on the lines alone: both expanders list the same gates for a group whose groups are written plainly, whatever other recipes, parameterised ones included, the justfile declares |
| ExactAgreement.InventoryAgreesExactly | tools/justfile_contract.rs:33-63 | on the lines alone, for a group whose expansion succeeds: both expanders list the same gates in the same order if and only if every group the expansion explores is written with the colon after its name and without parentheses |
| ExactAgreement.ReachAgreesExactly | tools/justfile_contract.rs:13-63 | the reached recipes with bodies are the scheduler's list through bodies, in order and through redirected entries, if and only if the group is read and no dependency that is not read leads to a recipe with a body |
| ExactAgreement.ParenthesesDisagree | tools/justfile_contract.rs:94-138 | a group that names a gate in parentheses, which expands to the gate for the scheduler and not for the checkers |
| ExactReach.FoundWithin | tools/justfile_contract.rs:33-63 | the checkers never find more recipes with bodies than the scheduler lists, and as many only if the lists are equal |
| ExactReach.LostAlong | tools/justfile_contract.rs:40-62 | along any chain to a dependency that is not read and leads to a body, the checkers' list is shorter |
| TextAgreement.UnreachedParameter | tools/justfile_contract.rs:140-146 | a justfile with a parameterised recipe outside the inventory on which text and dump agree, and both lists are its gates |
| FiniteGraph.Search.Visit | tools/ci_workflow_security.ts:57-83 | on acceptance `active` is restored and the value is admitted and completely searched; nothing within the budget is refused |
| FiniteGraph.Search.Enter | tools/ci_workflow_security.ts:75-82 | a new object is active while its children are searched and settled after them |
| FiniteGraph.Search.Begin | tools/ci_workflow_security.ts:75-79 | a new object becomes active and counts against the size budget; it is met at the end of its first path |
| FiniteGraph.Search.Leave | tools/ci_workflow_security.ts:82-82 | an object whose children are searched is settled and no longer active |
| FiniteGraph.Search.VisitChildren | tools/ci_workflow_security.ts:80-81 | on acceptance every child is admitted and settled |
| FiniteGraph.SettledPath | tools/ci_workflow_security.ts:73-82 | below a settled object every path stays settled and meets no object twice |
| FiniteGraph.NewIsFirst | tools/ci_workflow_security.ts:73-81 | an object is entered exactly on the path that takes, at every object, the first child from which it is reached |
| FiniteGraph.FirstPathUnique | tools/ci_workflow_security.ts:73-81 | an object of an acyclic graph has only one such path |
| FiniteGraph.Admits | tools/ci_workflow_security.ts:57-83 | accepts exactly the acyclic, admitted graphs of at most 10000 objects in which every such first path has at most 100 references; in particular those whose longest path has at most 100 |
| CommentStripper.LiteralLength | tools/product_status.rs:632-644 | a recognised char literal starts with an apostrophe, has at least three bytes and ends inside the text |
| CommentStripper.Turn | tools/product_status.rs:660-746 | one turn moves, changes state and keeps bytes as the five-state scanner prescribes |
| CommentStripper.ScanCode | tools/product_status.rs:670-691 | in code: raw string opener, char literal, string opener or plain byte |
| CommentStripper.ScanAll | tools/product_status.rs:656-746 | the loop over index, state and output buffer computes the stripped bytes |
| CommentStripper.WithoutComments | tools/product_status.rs:646-748 | on well-formed text the result is the stripped bytes and is itself well-formed |
| CommentStripper.StripKeepsUtf8 | tools/product_status.rs:747-747 | stripping well-formed UTF-8 gives well-formed UTF-8, so the conversion never falls back to the empty string |
| SourcePieces.StripKeepsCode | tools/product_status.rs:646-748 | for every text made of code, char literals, line comments, block comments nested below 2^32, quoted and raw strings, stripping returns exactly the code, the char literals and the unescaped newlines |
| SourceReading.PiecesOf | tools/product_status.rs:656-746 | every text whose scan ends in code or in a line comment, without saturating the depth counter, is made of such pieces |
| SourceReading.StripReadsPieces | tools/product_status.rs:646-748 | so for every such valid text stripping returns the code, the char literals and the unescaped newlines of its pieces |
| SourcePieces.LinesSurviveExactly | tools/product_status.rs:646-748 | the stripped text has as many newlines as the source if and only if no string escapes a newline, and never more |
| SourcePieces.EscapedNewlineIsLost | tools/product_status.rs:719-730 | a string of one escaped newline, whose line the scanner drops |
| SourcePieces.SpaceEndedFits | tools/product_status.rs:662-691 | code that ends in white space and holds no string mark or comment opener can be followed by anything |
| Json.SkipJsonWhitespace | tools/product_status.rs:1344-1348 | stops at the first byte that is not white space |
| Json.ExpectJsonByte | tools/product_status.rs:1350-1361 | accepts exactly the expected byte after white space and moves past it |
| Json.SkipJsonString | tools/product_status.rs:1393-1417 | stops past the closing quote, two bytes per escape, refusing control bytes and truncation |
| Json.SkipJsonToken | tools/product_status.rs:1475-1488 | refuses an empty token and otherwise stops at the next delimiter |
| Json.AfterJsonItem | tools/product_status.rs:1434-1447 | a list goes on at a comma, ends at its closing byte, and is malformed otherwise |
| Json.SkipJsonMembers | tools/product_status.rs:1430-1448 | the object loop stops past the closing brace of a well-shaped object |
| Json.SkipJsonElements | tools/product_status.rs:1457-1473 | the array loop stops past the closing bracket of a well-shaped array |
| Json.SkipJsonValue | tools/product_status.rs:1419-1491 | on any bytes it ends, and on success has consumed at least one byte and stays within the input |
| JsonGrammar.SkipsValue | tools/product_status.rs:1419-1491 | for every legal JSON value with any white space, followed by a delimiter where one is needed, the skipper stops exactly at the value's end |
| JsonExactly.SkipsExactly | tools/product_status.rs:1419-1491 | on any bytes, the skipper stops at a place if and only if the bytes up to it are white space and a legal value that is delimited there |
| CargoMetadata.ParsePlainJsonString | tools/product_status.rs:1363-1391 | returns the bytes between quotes when they hold no escape or control byte and are UTF-8 |
| CargoMetadata.ParseMetadataPackage | tools/product_status.rs:1493-1535 | returns the last `name` of the object when it is a valid package name |
| CargoMetadata.ParseMetadataPackages | tools/product_status.rs:1537-1567 | returns the set of names of the array, refusing a repeated one |
| CargoMetadata.PackageNamesFromMetadata | tools/product_status.rs:1569-1596 | returns the names of the first `packages` array of the root object |
| CargoMetadata.PackageNameExactly | tools/product_status.rs:1524-1535 | a package name is accepted if and only if it is a non-empty text of ASCII letters, digits, hyphens and underscores |
| MetadataDocument.ReadsPackageNames | tools/product_status.rs:1493-1596 | for every written document with escape-free keys, whatever `name` keys are nested elsewhere and whatever follows, the reader returns what the packages say |
| MetadataDocument.CollectExactly | tools/product_status.rs:1524-1551 | it succeeds if and only if every package has a valid name and no two are equal, and then returns exactly those names |
| InlineCode.ExactRun | tools/markdown_contract.rs:37-54 | finds where the first closing run starts |
| InlineCode.WithoutInlineCode | tools/markdown_contract.rs:36-71 | returns the text outside code spans |
| InlineCode.ClosingRun | tools/product_status.rs:1166-1181 | finds where the same closing run ends, by searching a shrinking rest |
| InlineCode.StripInlineCode | tools/product_status.rs:1156-1191 | returns the same text outside code spans, so the two removers are one function |
| InlineCode.CloseOfIsFirst | tools/markdown_contract.rs:37-54 | the closing run is the first maximal run of exactly the opening width, or there is none |
| InlineCode.SpanDisappears | tools/product_status.rs:1156-1191 | a span whose content has no run of its width disappears and the rest of the line is read afresh |
| CodeSpans.AllOutsideExactly | tools/markdown_contract.rs:36-71 | a line has no code span in the CommonMark reading if and only if no two of its runs have the same width |
| CodeSpans.FollowsCommonMarkExactly | tools/markdown_contract.rs:36-71 | the removers return the CommonMark reading if and only if no two runs after the first unclosed one have the same width |
| CodeSpans.LaterSpanStays | tools/product_status.rs:1182-1188 | a line with an unclosed run on which the removers leave a later span in place |
| Mermaid.MermaidRanges | tools/mermaid_docs.rs:68-91 | the nested loops return the ranges |
| Mermaid.ValidFenceExactly | tools/mermaid_docs.rs:47-66 | an opener is valid if and only if the trimmed line is three backticks and the lower-case language |
| Mermaid.ReadRange | tools/mermaid_docs.rs:73-86 | an opener's range ends at the first line that is its marker alone, or at the end of the file |
| Mermaid.RangesPartition | tools/mermaid_docs.rs:68-91 | ranges are well formed, ordered and disjoint, and every opening line stands in one |
| Mermaid.BlocksAppend | tools/mermaid_docs.rs:93-101 | once every block of a text is closed, appending lines appends their blocks |
| Mermaid.OutsideEditsKeepBlocks | tools/mermaid_docs.rs:93-105 | adding, deleting or rewriting non-opening lines outside ranges changes no block |
| MermaidEdits.OpensExactly | tools/mermaid_docs.rs:47-66 | a line opens a block if and only if, trimmed, it is three fence marks, white space and then the language in any case, with anything after it |
| MermaidEdits.ChangedExactly | tools/mermaid_docs.rs:93-105 | rendering is selected if and only if the line slices that the ranges cut out of the two texts differ |
| MermaidEdits.RewriteSelects | tools/mermaid_docs.rs:93-105 | rewriting one line strictly inside a closed range to a different line that is not its marker selects rendering |
| MermaidEdits.AppendToClosed | tools/mermaid_docs.rs:93-105 | appending lines to a text whose blocks are all closed selects rendering if and only if one of them opens a block |
| MermaidEdits.AppendToOpen | tools/mermaid_docs.rs:68-105 | appending any line to a text that ends inside a block selects rendering |
| AttemptMetrics.AddRows | tools/ci_attempt_metrics.py:160-165 | a page's rows are accepted exactly when each is measurable and repeats no id read so far, and are then measured in order |
| AttemptMetrics.CompleteJobs | tools/ci_attempt_metrics.py:145-173 | accepts exactly pages that agree on a total and hold that many measurable jobs with distinct ids, and returns their measurements in order |
| RunAnalysis.MarkJobs | tools/ci_attempt_metrics.py:179-195 | jobs seen before or not attributable to the latest attempt are marked and lose their durations, the others are unchanged |
| RunAnalysis.RecordSeen | tools/ci_attempt_metrics.py:282-288 | remembers every job id of the attempt and accepts exactly when required jobs lie within the run's clocks |
| RunAnalysis.AnalyseAttempts | tools/ci_attempt_metrics.py:273-289 | the attempt loop accepts exactly when every attempt is accepted and reports each of them |
| RunAnalysis.AnalyseRun | tools/ci_attempt_metrics.py:248-315 | accepts exactly the runs whose header, attempt set and attempts are valid, and returns their report |
| RunAnalysis.ChargedInFirstListing | tools/ci_attempt_metrics.py:179-186 | a charged job was listed in no earlier attempt |
| RunAnalysis.ChargedOnce | tools/ci_attempt_metrics.py:179-197 | over all attempts of an accepted run each job id is charged at most once, in the first attempt that lists it |
| RunReport.ChargedExactly | tools/ci_attempt_metrics.py:105-195 | a job is charged to an attempt if and only if its record shows completed work on a runner with ordered clocks, no earlier attempt lists its id and, in the latest of several attempts, it was created since the rerun started |
| RunAnalysis.SeenExactly | tools/ci_attempt_metrics.py:273-283 | the ids carried from attempt to attempt are exactly those that an earlier attempt lists |
| RunReport.RunAcceptedExactly | tools/ci_attempt_metrics.py:248-289 | a run is analysed if and only if its header is in order, every attempt's pages hold all its jobs once, each record belongs to the attempt, and required jobs lie within the run's clocks |
| RunReport.JobsReported | tools/ci_attempt_metrics.py:64-195 | every attempt lists the jobs of its records in order, each with the record's id, name, status, conclusion and clocks, its marks exactly where they belong, and its durations as clock differences exactly when it is charged |
| RunReport.ResultReported | tools/ci_attempt_metrics.py:198-213 | an attempt's result and completion are those of its one fresh required job, success is true if and only if that job completed with success, and without such a job nothing is reported |
| RunReport.WorkReported | tools/ci_attempt_metrics.py:196-240 | an attempt's charged jobs are counted, its queued and running time are the sums of their clock differences, and its wall is the last completion minus the first creation among them |
| RunReport.CountsReported | tools/ci_attempt_metrics.py:217-236 | the unattributed, badly timed, skipped and unassigned jobs of an attempt and its steps out of place are counted record by record |
| RunReport.FirstReported | tools/ci_attempt_metrics.py:313-315 | the run's first success is that of the fresh required job of attempt 1 |
| RunReport.LatestReported | tools/ci_attempt_metrics.py:290-303 | a latest time is reported if and only if the last attempt succeeded in a run that completed with success, and is then completion minus creation |
| RunAnalysis.WorkWithinWall | tools/ci_attempt_metrics.py:196-240 | in every attempt queued plus running time is at most the number of timed jobs times the observed wall |
| RunAnalysis.FirstAttemptStands | tools/ci_attempt_metrics.py:273-315 | accepted runs that agree on id, commit and the first attempt's pages report the same first attempt, whatever follows |
| RunAnalysis.LatestTimeWithinRun | tools/ci_attempt_metrics.py:282-303 | a reported latest time lies between zero and the run's own duration |
| InputRouter.Classify | tools/ci_inputs.py:73-230 | accepts exactly contracts with non-empty reader sets and census, legal consumers and legal packages, with a readable base where one is needed, and returns exactly the selected keys |
| InputRouter.ApplyConsumer | tools/ci_inputs.py:174-191 | one consumer turns on its outputs when relevant, and everything when a Rust reader changed |
| InputRouter.TurnOn | tools/ci_inputs.py:190-191 | outputs are added and one already on stays on |
| InputRouter.ApplyPackages | tools/ci_inputs.py:196-216 | the package loop accepts exactly legal packages and turns on what relevant ones need, in any order |
| InputRouter.Widen | tools/ci_inputs.py:217-224 | a contract edit or any doubt selects every key, the former keeping `input_all` |
| InputRouter.EnlargingKeepsGates | tools/ci_inputs.py:149-230 | on a fixed snapshot and contract, enlarging the change never deselects a gate |
| InputRouter.MandatoryAlwaysRuns | tools/ci_inputs.py:151-151 | mandatory gates always run |
| InputRouter.DoubtRunsEverything | tools/ci_inputs.py:161-173 | an unknown input, an unknown comparison or a membership change runs every gate |
| RouterEdges.AcceptedExactly | tools/ci_inputs.py:63-97 | a request is classified if and only if its contract is allowed and a census that the change touches has a readable base |
| RouterEdges.SelectedExactly | tools/ci_inputs.py:149-230 | the keys of the result, and for each that it is on if and only if there is doubt, a census change, a Rust reader drift or a hit consumer that lists `input_all`, or a matched edge of a consumer or package, a contract edit or the mandatory list accounts for it |
| RouterEdges.EdgeTurnsOn | tools/ci_inputs.py:180-191 | a changed path that matches an input, documentation or reader pattern of a consumer turns on each of its outputs |
| RouterEdges.PackageEdgeTurnsOn | tools/ci_inputs.py:202-216 | a changed path that matches a package pattern turns on the package's key and the Rust keys |
| RouterEdges.SkippedExactly | tools/ci_local.py:47-53 | after printing and reading back, the executor skips a gate if and only if its key is named and nothing accounts for it |
| RouterOutput.ReadExactly | tools/ci_local.py:36-53 | an output is read if and only if every line has a `=`, no two lines have the same key, both header lines are there and no gate is given a value other than `true` or `false` |
| RouterOutput.LeftOutExactly | tools/ci_local.py:47-53 | it then decides exactly the gates asked for, and a gate is left out if and only if a line says `false` of it |
| RouterOutput.ReadSelection | tools/ci_local.py:36-53 | the reader's loops compute the selection, refusing malformed or repeated lines, a wrong header, a missing default and invalid values |
| RouterOutput.ReadGates | tools/ci_local.py:47-53 | every gate gets its printed value, true when absent |
| RouterOutput.SplitPrinted | tools/ci_inputs.py:266-268 | splitting printed lines gives them back |
| RouterOutput.ReadsBack | tools/ci_local.py:36-53 | a printed result is read back exactly, whatever the order of its lines |
| RouterOutput.ReadableExactly | tools/ci_local.py:38-51 | a classifier result is refused exactly when a consumer lists `local_contract` among its outputs or a gate is called `contract` |
| RouterOutput.HeaderTakenIsRefused | tools/ci_local.py:38-46 | a contract with a consumer output `local_contract` that the classifier accepts and whose printed result the executor refuses |
| RouterOutput.MandatoryIsSelected | tools/ci_inputs.py:151-151 | a mandatory gate is selected in what the executor reads |
| RouterOutput.DoubtSelectsEverything | tools/ci_inputs.py:161-224 | any doubt about the change selects every gate in what the executor reads |
| RouterOutput.EnlargingSurvivesReadBack | tools/ci_inputs.py:266-268 | after printing and reading back, enlarging the change still never deselects a gate |
| ContextBudget.NestedBytes | tools/agent_context.rs:699-709 | sums the nested instruction files at or above a directory |
| ContextBudget.CheckChains | tools/agent_context.rs:691-716 | passes exactly when the root file exists and every directory with a nested file is within the budget |
| ContextBudget.EveryDirectoryFits | tools/agent_context.rs:691-716 | those directories are within the budget if and only if every directory is |
| ContextBudget.ParseManifest | tools/agent_context.rs:84-152 | accepts exactly a non-empty manifest of rows in their role's class with no path or owner twice, and returns their paths |
| ContextBudget.Check | tools/agent_context.rs:644-716 | accepts exactly when the rows parse and list the files found on disk, none of them an override, router and files meet their limits, the root file exists and every directory path is within 24 KiB |
| ContextBudget.DiskWithinBudget | tools/agent_context.rs:644-716 | for an accepted manifest, the instruction files on disk at or above any directory path have at most 24 KiB together |

## Left out

- SourcePieces.StripKeepsCode: block comments nested 2^32 deep or more, where the depth counter saturates, and texts that end inside a string or block comment are not covered.
- The shell script between the router and the executor (`tools/ci_changes.sh`): it passes the `local_` lines on, turns them all on when forced to, and prints its own value, true or false, for four Mermaid gates.
- InputRouter.Classify: the `documentation_only_*` keys, which narrow other jobs and are not read by the executor, are absent from the result; JSON types, the schema name and the retired digest keys of the contract file are not modelled, as a contract is a typed value here.
- SerialGates.HygieneAdmits: the exact commands of `ci`, `ci-full` and `ci-route` and the `js-fmt-check` tests around the rule are not modelled; they are fixed texts.
- ContextBudget.Check: manifest syntax and paths outside the repository, the prose of rows and files, and what follows the chain check (the `CLAUDE.md` alias, how evidence files are mentioned) are not modelled.
- CodeSpans.FollowsCommonMarkExactly: one line at a time, without backslash escapes and other inline markup that takes precedence.
- Justfiles in which a tab follows a recipe's name, a string spans lines, one name is declared for several operating systems (`[unix]`, `[windows]`), recipes are imported from other files, or dependencies name recipes of modules (`mod::recipe`): the comparison with the reading of `just` does not cover them.
- Fields of the attempt report that are copied from the records (labels, runner names, step lists, limitations).
- Rounding of seconds to three decimals: clocks are whole milliseconds.
- The checks of fixed commands in `tools/ci_hygiene.rs` and the exact-key and digest checks of `tools/ci_workflow_security.ts`: equality lists.
- File-system walks, Git, subprocesses, YAML, TOML and timestamp parsing, glob matching: their results are inputs.
- Stack depth of the recursive readers and machine-word overflow of indices.
- The product crates, the webview and the host.
