# Firebase iOS SDK: scripts and model downloader

A Dafny model of the algorithmic parts of this repository, with proofs. `dafny verify dfyconfig.toml`
checks all of it.

- **Bracket matching in cpplint.** Two matchers, one forward and one backward, over `( ) [ ] { } < >` with a
  mutable stack, look-behinds for `<<`, `->`, `>=` and `operator`, and resumption over lines; a third, independent
  one in `_GetTextInside`. `BracketGrammar` and `AngleGrammar` have the grammars of well-nested brackets and angles,
  `ExpressionScan` the two loops, `ScanLaws` what they do on a whole text, `ExpressionMatching` and `TemplateMatching`
  the searches over lines from brackets and from angles, `TextInside` the third matcher.
- **Block nesting in cpplint.** `ClassLookAhead` has the two searches that read ahead from a class head;
  `NestingValues` says what preprocessor lines and braces do to a stack of blocks, as values; `NestingState` has the
  classes, whose blocks are updated in place while snapshots of the stack are kept for `#else` and `#endif`, and proves
  that they do the same. `NestingHeads` says what lines with and without heads leave on the stack. `NestingErasure` and
  `NestingWitnesses` compare a file with what its first branches leave of it.
- **Comment eraser and include order in cpplint.** `CommentEraser`, `IncludeOrder`.
- **Model downloads.** `DownloadProtocol` is a transition system over atomic steps (a request, model info arriving, a
  file download ending, a queued removal, a deletion); `DownloadProofs`, `DownloadTheorems`, `DownloadUnique` and
  `DownloadAnswers` prove what all its runs keep, and `DownloadReplies` what each event answers and stores;
  `ModelDownloader` has the classes, each callback of which is proved to be one step, and `DownloadRun` calls them in any
  order. `ModelFileNames` has the file names.
- **Local podspecs.** `LocalDependencies`: a depth-first search with a visited set shared by the recursive calls.
- **Project sync.** `SyncValues` says what a sync does, `SyncTheorems` and `SyncConvergence` when it and the next one
  return 0, and `SyncEffects` where it puts which files; `SyncGroups`, `SyncTargets` and `SyncProject` have the classes,
  up to a `Sync` that is proved to be one step; `SyncWitnesses` runs it twice on two small projects.
- **Printers.** `ByteArrayPrinter`, `ChangelogTranslator`.

`Texts`, `Sequences` and `Wrappers` hold what several of these share.

Some things that the code or its documentation suggest do not hold. For each the failing input and the exact condition
are proved.

- `CloseExpression` from a `<` that comes after another `<` or after `operator` never pushes it, and can report the end
  of a later bracket pair (`SkippedUnsound`, `AngleExact`); `ReverseCloseExpression` from a `>` that its look-behinds
  skip can end at another bracket (`SkippedCloseBreaksInverse`, `ReverseAngleExact`).
- The two directions are not inverse at a `>` that the backward scan skips: on `()->`, going back from the `>` gives the
  `(`, while going forward from the `(` ends after the `)` (`SkippedCloseBreaksInverse`, `InverseExact`).
- In the forward scan the look-behind for `operator` at `>` reads the line up to one character earlier than at `<`, so
  that the `>` of `operator>` is not passed over (`OperatorThenLess`, `OperatorThenGreater`, `OperatorApartFromGreater`).
- Of each preprocessor region only the first branch counts, but a class head reads ahead into the others, and what it
  finds there stays on the stack: erasing them can change the outcome (`ErasingLosesLastLine`,
  `ErasingTurnsBlockIntoClass`, `ErasingOtherBranches`).
- A removal queued by one task can drop the entry of another task for the same model that is still running, after which
  new model info starts a second download beside it (`DuplicateDownload`, `UniqueExact`, `RunUniqueExact`,
  `NoStaleRemoval`).
- Not every success status yields a model: 299 is an internal error (`ModelExact`).
- A second sync need not return 0 (`ShadowedFile`, `WrongPhase`, `SecondSyncExact`).
- A name that begins with two dots, directly below a root group, is taken to lie outside of it (`HoldsExact`).

The model follows the code in these points too: when the retry budget is used up, no removal is queued; and the error
message in `find_group_containing` refers to a variable that does not exist, which raises as well, so that `Sync` returns
nothing in either case.

## Model

| member | source | states |
|---|---|---|
| `BracketGrammar.PlainScanExact` | ios/firebase-ios-sdk/scripts/cpplint.py:2011-2047 | A scan that knows only ( ) [ ] { } and a stack stops after a closer if and only if the text in between is a well-nested word of the grammar, whatever other characters it holds |
| `BracketGrammar.EnclosedMirror` | ios/firebase-ios-sdk/scripts/cpplint.py:2120-2194 | A text is a well-nested word between a bracket and its closer if and only if its mirror image is, which is what lets one grammar speak for both directions |
| `ExpressionScan.FindEndOfExpressionInLine` | ios/firebase-ios-sdk/scripts/cpplint.py:1998-2073 | The loop over a line with its shared stack reports what the step-by-step reading says, and leaves the stack as that reading leaves it |
| `ExpressionScan.FindStartOfExpressionInLine` | ios/firebase-ios-sdk/scripts/cpplint.py:2120-2194 | The same for the backward loop, whose index also skips a character |
| `ExpressionScan.SkippedIsOrdinary` | ios/firebase-ios-sdk/scripts/cpplint.py:2146-2150 | The character skipped by the backward scan is neither a bracket nor a semicolon |
| `ExpressionScan.OperatorExact` | ios/firebase-ios-sdk/scripts/cpplint.py:2024-2025 | The search for the word operator at the end of a line succeeds exactly on a text that ends with this word and then white space only |
| `ExpressionScan.OperatorThenLess` | ios/firebase-ios-sdk/scripts/cpplint.py:2019-2026 | A < directly after a text that ends with the word operator, with or without spaces, is passed over |
| `ExpressionScan.OperatorThenGreater` | ios/firebase-ios-sdk/scripts/cpplint.py:2049-2053 | A > directly after such a text is passed over by the forward scan if and only if the text ends with a space: in operator> the > counts |
| `ExpressionScan.OperatorApartFromGreater` | ios/firebase-ios-sdk/scripts/cpplint.py:2049-2053 | With any one character between such a text and the > the > is passed over, although another token may stand there |
| `ScanLaws.EndScanPlain` | ios/firebase-ios-sdk/scripts/cpplint.py:2011-2073 | Started on a bracket, the forward scan does on any text what the plain scan does that ignores <, > and ;, for every possible answer of the look-behinds, and the stack without its < is the plain stack |
| `ScanLaws.EndScanOver` | ios/firebase-ios-sdk/scripts/cpplint.py:2011-2073 | A bracket and all that is inside it leave whatever lies below it on the stack as it was, or the scan fails |
| `ScanLaws.StartMirrored` | ios/firebase-ios-sdk/scripts/cpplint.py:2136-2194 | The backward scan of any text, from any stack, is the forward scan of the text seen in a mirror, where the angles that the look-behinds pass over are passed over as well |
| `ExpressionMatching.CloseExpression` | ios/firebase-ios-sdk/scripts/cpplint.py:2076-2117 | The method that resumes the forward scan over the following lines computes Close, errors included |
| `ExpressionMatching.CloseIsScan` | ios/firebase-ios-sdk/scripts/cpplint.py:2076-2117 | The scans of the lines, each resumed with the stack of the one before, are one scan of the joined text |
| `ExpressionMatching.CloseExact` | ios/firebase-ios-sdk/scripts/cpplint.py:2076-2117 | For an opener ( [ { anywhere in a file, the result is (m, q) if and only if the text up to there, over all lines in between, is a well-nested word in these brackets: soundness and completeness, and so also exactly when it fails |
| `ExpressionMatching.ReverseCloseExpression` | ios/firebase-ios-sdk/scripts/cpplint.py:2197-2232 | The method that resumes the backward scan over the preceding lines computes Reverse |
| `ExpressionMatching.ReverseIsScan` | ios/firebase-ios-sdk/scripts/cpplint.py:2197-2232 | The same for the backward scans |
| `ExpressionMatching.ReverseExact` | ios/firebase-ios-sdk/scripts/cpplint.py:2197-2232 | For a closer ) ] } the result is (l, p) if and only if the text from there on is a well-nested word in these brackets |
| `ExpressionMatching.MutualInverse` | ios/firebase-ios-sdk/scripts/cpplint.py:2076-2232 | For an opener at (l, p) and any character at (m, c) other than a > that the backward scan skips, CloseExpression gives (m, c + 1) if and only if ReverseCloseExpression gives (l, p) |
| `ExpressionMatching.SkippedCloseBreaksInverse` | ios/firebase-ios-sdk/scripts/cpplint.py:2146-2152 | Every line in which the backward scan skips a > has a text with that line's end on which the two directions are not inverse, for instance ()-> |
| `ExpressionMatching.InverseExact` | ios/firebase-ios-sdk/scripts/cpplint.py:2120-2232 | For a > on a line: the two directions agree whatever text stands before it if and only if the backward look-behinds do not skip it |
| `AngleGrammar.AngleScanExact` | ios/firebase-ios-sdk/scripts/cpplint.py:2011-2073 | Started behind an opening <, a scan stops at q if and only if the text up to there is an angle group of the grammar: nested angle groups, bracketed groups in which angles mean nothing, and other characters but ; and brackets |
| `TemplateMatching.ForwardRoleExact` | ios/firebase-ios-sdk/scripts/cpplint.py:2014-2057 | Forward, a < opens a group unless a < or operator stands before it; the second < of a shift and every > that comes after neither - nor operator close one |
| `TemplateMatching.BackRoleExact` | ios/firebase-ios-sdk/scripts/cpplint.py:2141-2172 | Backward, of the < that follow each other only the first of an odd number opens a group, and a > closes one unless it comes after - or operator or stands between a space and = with a space |
| `TemplateMatching.AngleCloseExact` | ios/firebase-ios-sdk/scripts/cpplint.py:2076-2117 | Started on a < that is pushed, the result is (m, q) if and only if no = comes next and the text up to there, over all lines in between, is an angle group: where it ends, and exactly when it fails |
| `TemplateMatching.AngleReverseExact` | ios/firebase-ios-sdk/scripts/cpplint.py:2197-2232 | Started on a > that is pushed, the backward result is (l, p) if and only if the text from there on is an angle group |
| `TemplateMatching.AngleInverse` | ios/firebase-ios-sdk/scripts/cpplint.py:2076-2232 | Where both directions take the angles in between for the same, they are inverse at < and > too |
| `TemplateMatching.AngleComplete` | ios/firebase-ios-sdk/scripts/cpplint.py:2076-2232 | On lines without <<, <=, ->, >= and operator both searches find the other end of every group that is one to the eye, each < opening and each > closing |
| `TemplateMatching.NestedList` | ios/firebase-ios-sdk/scripts/cpplint.py:2027-2057 | On a<b<c>> the search from the first < ends after the last >, and back |
| `TemplateMatching.AngleSound` | ios/firebase-ios-sdk/scripts/cpplint.py:2016-2117 | Whatever a success from a pushed < encloses has all ( ) [ ] { } well nested and every semicolon inside one of them |
| `TemplateMatching.AngleExact` | ios/firebase-ios-sdk/scripts/cpplint.py:2016-2029 | The guarantee of AngleSound holds for all lines before, all that follows on the line and all lines after if and only if the text up to the < ends neither in << nor in the word operator and < |
| `TemplateMatching.SkippedUnsound` | ios/firebase-ios-sdk/scripts/cpplint.py:2018-2026 | A skipped < followed by () makes CloseExpression report the end of (): the input on which the guarantee fails |
| `TemplateMatching.ReverseAngleSound` | ios/firebase-ios-sdk/scripts/cpplint.py:2120-2232 | The same as AngleSound for the backward search from a pushed > |
| `TemplateMatching.ReverseAngleExact` | ios/firebase-ios-sdk/scripts/cpplint.py:2145-2152 | For a > on a line: a success is a template argument list whatever text replaces the part of the line to the left of the look-behind, if and only if the > is not skipped |
| `TextInside.GetTextInside` | ios/firebase-ios-sdk/scripts/cpplint.py:5174-5227 | The third matcher returns the text between an opener and its closer exactly when the text encloses a well-nested word, and nothing otherwise |
| `TextInside.LineScanIsTextInside` | ios/firebase-ios-sdk/scripts/cpplint.py:1998-2073 | On one line the forward scan from an opener gives the text up to its end exactly when the text from there encloses a well-nested word, so that it and _GetTextInside agree |
| `ClassLookAhead.InTemplateArgumentList` | ios/firebase-ios-sdk/scripts/cpplint.py:2965-3015 | The loop that reads ahead, over lines and over argument lists matched by CloseExpression, terminates and computes InTemplate, which goes by the first character that tells |
| `ClassLookAhead.TellsExact` | ios/firebase-ios-sdk/scripts/cpplint.py:2977-3013 | The first of the characters { } ; = [ ] . < > decides: yes at > = [ ] or ., no at a brace or semicolon, and at a < the search goes on at its other end, or says no without one |
| `ClassLookAhead.NothingTells` | ios/firebase-ios-sdk/scripts/cpplint.py:2977-2984 | A line with none of them is passed over, and the end of the file says no |
| `ClassLookAhead.FindEndOfClass` | ios/firebase-ios-sdk/scripts/cpplint.py:2778-2785 | The search ahead for the last line of a class computes Balanced |
| `ClassLookAhead.EndOfClassExact` | ios/firebase-ios-sdk/scripts/cpplint.py:2778-2785 | That line is k if and only if the braces of the lines up to and including k balance and those of no shorter stretch do |
| `NestingValues.RunMeaning` | ios/firebase-ios-sdk/scripts/cpplint.py:3017-3118 | Running Update over any well-nested arrangement of #if, #elif, #else and #endif, its lines given as they were recognised in the file, leaves the preprocessor stack as it was and does to the block stack what the first branches alone do |
| `NestingValues.OnlyFirstBranches` | ios/firebase-ios-sdk/scripts/cpplint.py:3017-3071 | For lines as they were recognised, the branches after the first of a region, however deep, leave nothing behind |
| `NestingErasure.ErasingOtherBranches` | ios/firebase-ios-sdk/scripts/cpplint.py:2778-3071 | Erasing from a file every branch but the first of each region: the stack after the heads of each kept line is as before if and only if every class head reached in a first branch finds the same last line and the same answer to the template question; then the final states are equal. The preprocessor stack is restored in any case |
| `NestingWitnesses.ErasingLosesLastLine` | ios/firebase-ios-sdk/scripts/cpplint.py:2778-2785 | class X {, #if A, #else, }, #endif: the class ends at line 4 in the whole file and nowhere in the erased one |
| `NestingWitnesses.ErasingTurnsBlockIntoClass` | ios/firebase-ios-sdk/scripts/cpplint.py:2965-3015 | class X, #if A, #else, >, #endif, {: a plain block is open in the whole file, and the class in the erased one |
| `NestingWitnesses.LosesLastLine` | ios/firebase-ios-sdk/scripts/cpplint.py:2778-2785 | The first of these inputs for any class head that opens a brace and any lines of that shape: both final stacks, which differ in the last line |
| `NestingWitnesses.LosesTemplate` | ios/firebase-ios-sdk/scripts/cpplint.py:2965-3015 | The second for any head without a telling character, any branch line and any following line that tell: both final stacks |
| `NestingValues.ConsumeDepth` | ios/firebase-ios-sdk/scripts/cpplint.py:3199-3236 | On braces with all blocks open the final depth is the net count plus the larger of the initial depth and the deficit; all blocks stay open and those below the deficit stay untouched |
| `NestingValues.DeficitIsMaximum` | ios/firebase-ios-sdk/scripts/cpplint.py:3199-3236 | The deficit is the largest excess of closing braces over all prefixes, and some prefix has it |
| `NestingValues.WellNestedTokens` | ios/firebase-ios-sdk/scripts/cpplint.py:3199-3236 | Well-nested braces leave the stack exactly as it was |
| `NestingValues.LineDepth` | ios/firebase-ios-sdk/scripts/cpplint.py:3074-3236 | The same for a whole line without class or namespace heads: only parenthesis, asm and access bookkeeping may change |
| `NestingHeads.WaitingHead` | ios/firebase-ios-sdk/scripts/cpplint.py:3199-3236 | On top of any stack, a head that waits for its brace is dropped by a semicolon, a closing parenthesis or a closing brace, and opened by an opening one; the other tokens then do to what is left what they do to it alone |
| `NestingHeads.HeadWithBody` | ios/firebase-ios-sdk/scripts/cpplint.py:3199-3236 | A waiting head, its braces and a well-nested body between them leave the stack below as it was |
| `NestingHeads.BracePushes` | ios/firebase-ios-sdk/scripts/cpplint.py:3207-3216 | On an open stack a brace pushes an extern C block, an assembly block or a plain one |
| `NestingHeads.LineWithoutHeads` | ios/firebase-ios-sdk/scripts/cpplint.py:3098-3192 | What a line without heads does to the block on top, field by field, before its tokens are read |
| `NestingHeads.WaitingLine` | ios/firebase-ios-sdk/scripts/cpplint.py:3098-3236 | A head left waiting by an earlier line is dropped or opened by the first token of this one |
| `NestingHeads.ClassLine` | ios/firebase-ios-sdk/scripts/cpplint.py:3098-3197 | An accepted class head puts on the stack, whose top block alone has its parentheses counted, a waiting block with its name, access, base and last line |
| `NestingHeads.ForwardDeclaration` | ios/firebase-ios-sdk/scripts/cpplint.py:3146-3230 | A class head and a semicolon before any brace leave the stack to the rest of the line: as it was, but for the parentheses and assembly of the block that was on top |
| `NestingHeads.Definition` | ios/firebase-ios-sdk/scripts/cpplint.py:3146-3213 | A class head and a brace leave the class block open on the stack |
| `NestingHeads.NoClass` | ios/firebase-ios-sdk/scripts/cpplint.py:3146-3166 | A class head inside parentheses or template arguments does what the line does without it |
| `NestingHeads.NamespacesPushed` | ios/firebase-ios-sdk/scripts/cpplint.py:3121-3142 | One block for each namespace head, open if its brace was on the line |
| `NestingHeads.AsmExact` | ios/firebase-ios-sdk/scripts/cpplint.py:3098-3119 | Over lines without heads and braces a block is inside assembly exactly when one of them started it, opening its first parenthesis, and the parentheses have not been closed since; assembly ends exactly on the line that closes them |
| `NestingState.NestingState.ConsumeToken` | ios/firebase-ios-sdk/scripts/cpplint.py:3199-3236 | One brace, semicolon or parenthesis, on the objects, is ConsumeOne on values, of which WaitingHead and BracePushes say what it is |
| `NestingState.DeepCopy` | ios/firebase-ios-sdk/scripts/cpplint.py:3038-3053 | A copied stack is made of new block objects, equal in value to the old ones |
| `NestingState.NestingState.BeginIf` | ios/firebase-ios-sdk/scripts/cpplint.py:3038-3041 | #if pushes a record that owns a copy of the stack; the live blocks are in no record |
| `NestingState.NestingState.BeginElse` | ios/firebase-ios-sdk/scripts/cpplint.py:3042-3056 | #else keeps a copy of the stack once and goes back to a copy of the stack before #if; the kept records do not share blocks with the live stack |
| `NestingState.NestingState.EndIf` | ios/firebase-ios-sdk/scripts/cpplint.py:3057-3071 | #endif puts back the stack kept at the first #else, if any, and drops the record |
| `NestingState.NestingState.UpdatePreprocessor` | ios/firebase-ios-sdk/scripts/cpplint.py:3017-3071 | On objects updated in place, a preprocessor line does what Preprocess does on values and keeps snapshots isolated |
| `NestingState.NestingState.UpdateCode` | ios/firebase-ios-sdk/scripts/cpplint.py:3098-3236 | A line of code changes the blocks of the live stack in place and no snapshot |
| `NestingState.NestingState.Update` | ios/firebase-ios-sdk/scripts/cpplint.py:3074-3236 | One Update on the objects is one Update on values; previous_stack_top is the top before the line |
| `NestingState.ProcessLines` | ios/firebase-ios-sdk/scripts/cpplint.py:6404-6424 | A whole file run on the objects ends in the state that Run gives on values, to which the first-branch theorem applies |
| `CommentEraser.RemoveMultiLineComments` | ios/firebase-ios-sdk/scripts/cpplint.py:1871-1884 | In place and with no limit on the lines: exactly the lines of comments that are ended are overwritten, all others are untouched, and an error names the start of the comment that has no end, if there is one. Comments are defined by reading one line after the other, not by the search |
| `CommentEraser.MarkersExact` | ios/firebase-ios-sdk/scripts/cpplint.py:1843-1862 | Whatever white space stands around its text, a line starts a comment that goes on exactly when the text begins with one that has no end on the line, and ends one exactly when the text ends with the end marker |
| `IncludeOrder.IncludeState.CheckNextIncludeOrder` | ios/firebase-ios-sdk/scripts/cpplint.py:1187-1244 | A header moves the section forward or not at all; an error names the header and the section, and does not move it; the last header is forgotten on an error and on a move |
| `IncludeOrder.ReportedExact` | ios/firebase-ios-sdk/scripts/cpplint.py:1087-1244 | A C header comes too late exactly after a C++, other system or other header or an own header that is not first; a C++ header after the latter three; an other system header after the latter two |
| `IncludeOrder.CheckIncludes` | ios/firebase-ios-sdk/scripts/cpplint.py:5159-5163 | Between resets exactly the headers of that closed form are reported |
| `CommentEraser.Idempotent` | ios/firebase-ios-sdk/scripts/cpplint.py:1871-1884 | A second run changes nothing and reports the same error, also when the last comment has no end |
| `CommentEraser.NoStartLeft` | ios/firebase-ios-sdk/scripts/cpplint.py:1843-1884 | After a run a line starts a comment only from the one reported on |
| `CommentEraser.CleanWithoutError` | ios/firebase-ios-sdk/scripts/cpplint.py:1871-1884 | With no error no line starts a comment |
| `CommentEraser.OneResult` | ios/firebase-ios-sdk/scripts/cpplint.py:1871-1884 | The specification of the erased lines and of the error leaves no choice |
| `DownloadProofs.StepKeeps` | ios/firebase-ios-sdk/FirebaseMLModelDownloader/Sources/ModelDownloader.swift:418-522 | Every atomic step keeps the invariant: places conserved, tasks started once, budget conserved, store coherent |
| `DownloadTheorems.ExactlyOnePlace` | ios/firebase-ios-sdk/FirebaseMLModelDownloader/Sources/ModelDownloader.swift:418-522 | In every reachable state each request is in exactly one place, once: awaiting model info, in the handlers of exactly one task that is not complete, or answered |
| `DownloadTheorems.AnsweredExactlyOnce` | ios/firebase-ios-sdk/FirebaseMLModelDownloader/Sources/ModelDownloader.swift:418-522 | When all info calls and downloads have ended, every request was answered exactly once, and nothing else was answered |
| `DownloadTheorems.BudgetConserved` | ios/firebase-ios-sdk/FirebaseMLModelDownloader/Sources/ModelDownloader.swift:444-466 | Retries left plus retries made is the initial budget and never goes below zero; each task starts exactly one download; all downloads together are at most the requests plus the budget |
| `DownloadTheorems.RunsAreFinite` | ios/firebase-ios-sdk/FirebaseMLModelDownloader/Sources/ModelDownloader.swift:418-522 | The steps of any run are at most three for each request and three for each retry of the budget |
| `DownloadTheorems.NotStuck` | ios/firebase-ios-sdk/FirebaseMLModelDownloader/Sources/ModelDownloader.swift:418-522 | While something is outstanding some step is enabled, so that with RunsAreFinite every run can be brought to rest |
| `DownloadTheorems.StoreCoherent` | ios/firebase-ios-sdk/FirebaseMLModelDownloader/Sources/ModelDownloadTask.swift:291-364 | Whenever a local model is returned, its recorded hash is that of the download that wrote the file now on disk, also after failed removals and failed moves |
| `DownloadUnique.UniqueExact` | ios/firebase-ios-sdk/FirebaseMLModelDownloader/Sources/ModelDownloader.swift:471-505 | From a state with at most one running download for each model, a step leads to another such state if and only if it is not the arrival of new model info for a model whose running download cannot be merged with |
| `DownloadUnique.RunUniqueExact` | ios/firebase-ios-sdk/FirebaseMLModelDownloader/Sources/ModelDownloader.swift:418-522 | A run from the start has at most one running download of each model in all its states if and only if none of its steps is such an arrival |
| `DownloadUnique.NoStaleRemoval` | ios/firebase-ios-sdk/FirebaseMLModelDownloader/Sources/ModelDownloader.swift:471-505 | A run in which no queued removal finds a task that is not complete ends with every running download tracked and no two of one model |
| `DownloadTheorems.TrackedIsUnique` | ios/firebase-ios-sdk/FirebaseMLModelDownloader/Sources/ModelDownloader.swift:476-505 | Two running downloads of one model that are both tracked are the same |
| `DownloadTheorems.TrackedExact` | ios/firebase-ios-sdk/FirebaseMLModelDownloader/Sources/ModelDownloader.swift:471-474 | A step keeps every running download tracked if and only if it is not a queued removal that finds a task that is not complete under its name |
| `DownloadTheorems.DuplicateDownload` | ios/firebase-ios-sdk/FirebaseMLModelDownloader/Sources/ModelDownloader.swift:471-474 | A run that ends with two downloads of one model at once: two merged requests, one failure, and the second of their removals |
| `DownloadAnswers.DeliverExact` | ios/firebase-ios-sdk/FirebaseMLModelDownloader/Sources/ModelDownloader.swift:431-475 | Ending a download answers its handlers in the order of merging; with an expired URL the first are retried as far as the budget goes and the others get an internal error and queue no removal |
| `DownloadAnswers.AnswersAreGenuine` | ios/firebase-ios-sdk/FirebaseMLModelDownloader/Sources/ModelDownloadTask.swift:303-329 | Every model handed to a request carries the hash of a finished download of the model that this request asked for |
| `DownloadAnswers.ModelExact` | ios/firebase-ios-sdk/FirebaseMLModelDownloader/Sources/ModelDownloadTask.swift:185-267 | A finished download yields a model if and only if its status is at least 200 and below 299 and its file gets into place; 299 is an internal error and changes nothing |
| `DownloadReplies.NotModifiedReply` | ios/firebase-ios-sdk/FirebaseMLModelDownloader/Sources/ModelDownloader.swift:506-516 | Not modified: the request is answered with the model of hash h if and only if its file and its record with h are on the device, and with an internal error if and only if they are not |
| `DownloadReplies.InfoFailedReply` | ios/firebase-ios-sdk/FirebaseMLModelDownloader/Sources/ModelDownloader.swift:518-520 | The error of the info call is handed on |
| `DownloadReplies.NewInfoStarts` | ios/firebase-ios-sdk/FirebaseMLModelDownloader/Sources/ModelDownloader.swift:476-505 | New info: the request joins as the last one the tracked task that is downloading, or gets a tracked task of its own |
| `DownloadReplies.EndsExact` | ios/firebase-ios-sdk/FirebaseMLModelDownloader/Sources/ModelDownloadTask.swift:116-365 | Every end of a download is a success, an expired URL, or leads to exactly one error |
| `DownloadReplies.SuccessReplies` | ios/firebase-ios-sdk/FirebaseMLModelDownloader/Sources/ModelDownloadTask.swift:185-335 | Status 200 to 298 and a file in place: every request merged into the task is told of the model with its hash, in order, and file and record are those of the task |
| `DownloadReplies.FailureReplies` | ios/firebase-ios-sdk/FirebaseMLModelDownloader/Sources/ModelDownloadTask.swift:116-365 | Every failure, status code by status code, is told to all of them; a move that fails leaves no file, and the record always stays |
| `DownloadReplies.ExpiredReplies` | ios/firebase-ios-sdk/FirebaseMLModelDownloader/Sources/ModelDownloader.swift:444-466 | With an expired URL the first requests ask again, as many as the budget allows, and the others are told of an internal error |
| `DownloadReplies.DeleteExact` | ios/firebase-ios-sdk/FirebaseMLModelDownloader/Sources/ModelDownloader.swift:286-336 | Afterwards neither the file nor the record of the model is there, and all others are, unless the file cannot be removed or was not there: then nothing changes |
| `DownloadRun.RunEvents` | ios/firebase-ios-sdk/FirebaseMLModelDownloader/Sources/ModelDownloader.swift:378-522 | Calling the callbacks on the objects one after another, for any list of events, ends in the state that the protocol reaches by those of the events that can happen, which is a run of the protocol |
| `DownloadRun.ObjectsKeepPlaces` | ios/firebase-ios-sdk/FirebaseMLModelDownloader/Sources/ModelDownloader.swift:418-522 | So on the objects each request awaits its info, is in the handlers of exactly one task, or was answered once; the budget is conserved; every task has started exactly one download |
| `DownloadRun.ObjectsKeepStore` | ios/firebase-ios-sdk/FirebaseMLModelDownloader/Sources/ModelDownloadTask.swift:291-364 | So on the objects the recorded hash of a local model is that of the task that wrote its file, a task for this model |
| `ModelDownloader.ModelDownloadTask.Resume` | ios/firebase-ios-sdk/FirebaseMLModelDownloader/Sources/ModelDownloadTask.swift:88-116 | A task that is downloading starts no second download |
| `ModelDownloader.ModelDownloader.StartDownload` | ios/firebase-ios-sdk/FirebaseMLModelDownloader/Sources/ModelDownloader.swift:476-505 | Merging with the tracked task or making a new one |
| `ModelDownloader.ModelDownloader.Complete` | ios/firebase-ios-sdk/FirebaseMLModelDownloader/Sources/ModelDownloader.swift:431-475 | The completion of one request: retry, answer and removal |
| `ModelDownloader.ModelDownloader.InfoArrives` | ios/firebase-ios-sdk/FirebaseMLModelDownloader/Sources/ModelDownloader.swift:418-522 | The callback of the info call, on objects updated in place, is one InfoArrives step of the protocol; when nothing was modified the request is told of the recorded model if file and record are there, and of an internal error otherwise |
| `ModelDownloader.ModelDownloader.DownloadEnds` | ios/firebase-ios-sdk/FirebaseMLModelDownloader/Sources/ModelDownloadTask.swift:116-181 | The callback of a file download is one DownloadEnds step of the protocol, all chained completions included; on success all of them are told of the model, and on each failure of its error |
| `ModelDownloader.ModelDownloader.DeleteDownloadedModel` | ios/firebase-ios-sdk/FirebaseMLModelDownloader/Sources/ModelDownloader.swift:286-336 | Deleting drops file and record together, or neither |
| `ModelDownloader.ModelDownloader.MoveFile` | ios/firebase-ios-sdk/FirebaseMLModelDownloader/Sources/ModelFileManager.swift:95-117 | What is on disk after a move, a failed removal, or a failed move that comes after the old file was removed |
| `ModelDownloader.ModelDownloader.HandleResponse` | ios/firebase-ios-sdk/FirebaseMLModelDownloader/Sources/ModelDownloadTask.swift:185-365 | The result of a response and the store after it, status code by status code |
| `ModelFileNames.SplitExact` | ios/firebase-ios-sdk/FirebaseMLModelDownloader/Sources/ModelFileManager.swift:65-66 | Splitting a name at its leftmost separators gives certain parts if and only if they join to it, none holds a separator and none but the last ends with half of one |
| `ModelFileNames.RoundTripExact` | ios/firebase-ios-sdk/FirebaseMLModelDownloader/Sources/ModelFileManager.swift:59-82 | The model name is read back from its file name if and only if the app name neither holds @@ nor ends with @, and the model name holds no @@ |
| `ModelFileNames.FileNameExact` | ios/firebase-ios-sdk/FirebaseMLModelDownloader/Sources/ModelFileManager.swift:59-82 | The file name: fbml_model, the app name and the model name joined by @@, and .tflite |
| `LocalDependencies.AllDeps` | ios/firebase-ios-sdk/scripts/pod_lib_lint.rb:111-123 | The pods that the specs of a file depend on, subspecs cut off, each once and in the order of first mention |
| `LocalDependencies.DistinctIsDistinct` | ios/firebase-ios-sdk/scripts/pod_lib_lint.rb:111-123 | Collecting into an insertion-ordered set loses nothing and repeats nothing |
| `LocalDependencies.EdgeExact` | ios/firebase-ios-sdk/scripts/pod_lib_lint.rb:100-123 | The search follows an edge from a to b exactly when the spec of a, or one of its direct subspecs, names the pod of b or a subspec of it |
| `LocalDependencies.FindLocalDeps` | ios/firebase-ios-sdk/scripts/pod_lib_lint.rb:129-154 | Terminates on every graph, cycles included; the results are, without duplicates, exactly the local podspecs reached by paths of such edges that avoid the root and what had been seen, each after one that depends on it; the shared set ends as it was, plus the root and the results |
| `LocalDependencies.SearchExact` | ios/firebase-ios-sdk/scripts/pod_lib_lint.rb:129-154 | The same of the search as a function: no duplicates, and membership if and only if there is such a path |
| `LocalDependencies.SearchIsClosed` | ios/firebase-ios-sdk/scripts/pod_lib_lint.rb:142-151 | Every edge from what was found leads to what was seen |
| `LocalDependencies.OrderDoesNotMatter` | ios/firebase-ios-sdk/scripts/pod_lib_lint.rb:111-154 | Listing the dependencies in another order, or more than once, finds the same podspecs and as many |
| `SyncValues.FoundExact` | ios/firebase-ios-sdk/scripts/sync_project.rb:785-801 | What walking the directories of the groups finds is what a path leads to from one of them without an ignored name |
| `SyncEffects.ExtnameExact` | ios/firebase-ios-sdk/scripts/sync_project.rb:521-533 | For an ending that is a dot and no more dots, a name has it as its extension if and only if the name is a base that does not consist of dots alone and this ending |
| `SyncEffects.PhaseExact` | ios/firebase-ios-sdk/scripts/sync_project.rb:336-337 | .c .cc .m .mm and .swift belong in the sources, .h in no phase, and everything else in the resources |
| `SyncEffects.SyncPlaces` | ios/firebase-ios-sdk/scripts/sync_project.rb:399-533 | After a sync, for every path of a synced target: a matched file of the project that was not built is added, once and in the phase of its ending, a built file that is not matched is taken from it, and everything else stays; references to missing files are gone |
| `SyncEffects.UnsyncedKeeps` | ios/firebase-ios-sdk/scripts/sync_project.rb:412-421 | A target without a definition that syncs sources only loses references to missing files |
| `SyncEffects.SyncFiles` | ios/firebase-ios-sdk/scripts/sync_project.rb:399-495 | One new reference for each file below the groups that they do not show, and of each missing file the last reference in the groups is gone |
| `SyncEffects.ChangesExact` | ios/firebase-ios-sdk/scripts/sync_project.rb:399-430 | The number returned: the files that are new or missing, and in each target the files, but for headers, that are added or taken |
| `SyncTheorems.ZeroExact` | ios/firebase-ios-sdk/scripts/sync_project.rb:399-453 | A sync returns 0 if and only if the groups show exactly the files that there are to show and every synced target has, headers aside, exactly the project files that its definition matches; it then leaves the project as it is |
| `SyncConvergence.GroupsConvergeExact` | ios/firebase-ios-sdk/scripts/sync_project.rb:399-453 | After a sync the groups match the file system if and only if no missing file had two references in the groups and the groups made for new files bring in no further file |
| `SyncConvergence.SecondSyncExact` | ios/firebase-ios-sdk/scripts/sync_project.rb:399-533 | An immediate second sync returns 0 if and only if the new groups bring in nothing, no missing file had two references in the groups, every other file that a target has to lose is built once, in the phase find_phase gives, and each target is left with what it should have of the references to missing files; then the second sync changes nothing at all |
| `SyncConvergence.SettlesOnce` | ios/firebase-ios-sdk/scripts/sync_project.rb:434-515 | Where each missing file has one reference in the project, only the first and the third of these conditions are left |
| `SyncConvergence.ShadowReference` | ios/firebase-ios-sdk/scripts/sync_project.rb:434-453 | A second reference, outside the groups, to a missing file that a target matches makes the second sync return more than 0 |
| `SyncWitnesses.ShadowedFile` | ios/firebase-ios-sdk/scripts/sync_project.rb:399-453 | A project with two references to a missing x.m, one of them grouped, on the objects: the second sync returns more than 0 |
| `SyncWitnesses.WrongPhase` | ios/firebase-ios-sdk/scripts/sync_project.rb:499-533 | A project that builds x.m as a resource for a target that does not match it, on the objects: the second sync returns more than 0 |
| `SyncConvergence.StaysWellFormed` | ios/firebase-ios-sdk/scripts/sync_project.rb:399-495 | A sync keeps every group and build phase referring to files of the project, with identities unique |
| `SyncGroups.Diff.Track` | ios/firebase-ios-sdk/scripts/sync_project.rb:678-686 | The entry of a path, the same object whenever it is tracked again |
| `SyncGroups.GroupDiffer.FindFsFiles` | ios/firebase-ios-sdk/scripts/sync_project.rb:785-801 | Skipping directories that were walked before loses no file: what is tracked is all that lies below the directory |
| `SyncGroups.GroupDiffer.DiffGroups` | ios/firebase-ios-sdk/scripts/sync_project.rb:755-783 | The entries, flag by flag, are the difference of file system and groups |
| `SyncTargets.DiffTarget` | ios/firebase-ios-sdk/scripts/sync_project.rb:295-332 | The entries are the difference of matched project files and target files |
| `SyncTargets.SyncTargetEntry` | ios/firebase-ios-sdk/scripts/sync_project.rb:499-515 | One entry: nothing, one build file added, or one taken away, and whether that counts |
| `SyncTargets.AnyOrder` | ios/firebase-ios-sdk/scripts/sync_project.rb:699-701 | The order of the entries does not matter for the target or for the count |
| `SyncTargets.SyncEntries` | ios/firebase-ios-sdk/scripts/sync_project.rb:416-420 | All the entries of a target |
| `SyncProject.Syncer.FindProjectFiles` | ios/firebase-ios-sdk/scripts/sync_project.rb:434-453 | Grouped files whose path is neither about to be removed nor ignored |
| `SyncProject.HoldsExact` | ios/firebase-ios-sdk/scripts/sync_project.rb:476-485 | A root group is found to hold a path if and only if the path lies below it and its first name below it does not begin with two dots; a file ..x in the group is not held |
| `SyncProject.Syncer.FindGroupContaining` | ios/firebase-ios-sdk/scripts/sync_project.rb:476-485 | The first root group that holds the path, or none |
| `SyncProject.Syncer.AddToProject` | ios/firebase-ios-sdk/scripts/sync_project.rb:457-471 | One new reference for each path, or failure if and only if some path lies below no root group |
| `SyncProject.Syncer.RemoveFromProject` | ios/firebase-ios-sdk/scripts/sync_project.rb:490-495 | The references leave the project, its groups and all build phases, and nothing else does |
| `SyncProject.SyncTwice` | ios/firebase-ios-sdk/scripts/sync_project.rb:399-430 | Two syncs in a row, on the objects, for any project: the second returns 0, and cannot fail, exactly under the conditions of SecondSyncExact |
| `SyncProject.Syncer.Sync` | ios/firebase-ios-sdk/scripts/sync_project.rb:399-430 | The whole sync on objects updated in place is one SyncStep, with its number of changes |
| `ByteArrayPrinter.DataLines` | ios/firebase-ios-sdk/scripts/binary_to_array.py:184-195 | The loop emits the lines of the array |
| `ByteArrayPrinter.ReadsBack` | ios/firebase-ios-sdk/scripts/binary_to_array.py:184-195 | Reading the emitted lines gives back the bytes, for every length |
| `ByteArrayPrinter.LineExact` | ios/firebase-ios-sdk/scripts/binary_to_array.py:184-195 | Four spaces, and each byte as 0x, two lower-case hexadecimal digits and a comma, with one space in between |
| `ByteArrayPrinter.LineShape` | ios/firebase-ios-sdk/scripts/binary_to_array.py:70-72 | n / 12 + 1 lines, all but the last with 12 bytes, the last with the rest, none longer than 80 characters |
| `ChangelogTranslator.MatchIsPrefix` | ios/firebase-ios-sdk/scripts/make_release_notes.py:185-228 | Each of the six rules matches a non-empty prefix or nothing |
| `ChangelogTranslator.HeadingExact` | ios/firebase-ios-sdk/scripts/make_release_notes.py:185-187 | One to six #, a space, and all that is left of the line |
| `ChangelogTranslator.BulletExact` | ios/firebase-ios-sdk/scripts/make_release_notes.py:192-194 | White space, one of * + -, and a space |
| `ChangelogTranslator.ChangeTypeExact` | ios/firebase-ios-sdk/scripts/make_release_notes.py:199-204 | A word in square brackets that no opening parenthesis follows |
| `ChangelogTranslator.UrlExact` | ios/firebase-ios-sdk/scripts/make_release_notes.py:209-210 | The longest text of a scheme and at least two characters without white space and <, of which the last is no punctuation; nothing exactly when there is none |
| `ChangelogTranslator.LocalIssueLinkExact` | ios/firebase-ios-sdk/scripts/make_release_notes.py:214-218 | A non-empty list of # and a number, each with or without a comma and a space after it, in parentheses |
| `ChangelogTranslator.PlainTextExact` | ios/firebase-ios-sdk/scripts/make_release_notes.py:223-225 | The shortest non-empty text before ( or [ or a new line or a URL or the end |
| `ChangelogTranslator.RuleOrder` | ios/firebase-ios-sdk/scripts/make_release_notes.py:230-232 | The order in which the rules are tried |
| `ChangelogTranslator.TokensPartition` | ios/firebase-ios-sdk/scripts/make_release_notes.py:167-183 | The lexemes are non-empty and put together are the text |
| `ChangelogTranslator.TokensExact` | ios/firebase-ios-sdk/scripts/make_release_notes.py:167-183 | There is exactly one way to cut a text so that each piece is taken by the first rule of the list that matches there |
| `ChangelogTranslator.Translate` | ios/firebase-ios-sdk/scripts/make_release_notes.py:167-183 | Terminates on every text and renders the tokens in order, for any renderer |
| `ChangelogTranslator.EchoIsIdentity` | ios/firebase-ios-sdk/scripts/make_release_notes.py:167-183 | A renderer that echoes gives back the text |

## Left out

- The style checks of cpplint, its output formats, flags and file walking: they have no state of their own, and use the matchers and the nesting state modelled here.
- Characters outside ASCII: white space and word characters are those of ASCII.
- Update: what the regular expressions for namespace heads, class heads, access keywords and tokens find on a line is data of `Line`, with every branch taken on it modelled; the text that a class head reads ahead over is data as well, and is read by the model itself.
- UpdateCode: as for `Update`.
- ErasingOtherBranches: erased lines leave the numbers of the other lines as they are, and the region directives themselves are kept.
- Errors reported by `CheckBegin`, `CheckEnd` and the access check of `NestingState`, `CheckCompletedBlocks`, and the check for namespace indentation: they do not change the state.
- The alphabetical check of includes and `include_list`: `lastHeader` is only reset, as in `CheckNextIncludeOrder`.
- `ModelInfoRetriever`, `FileDownloader`, telemetry and logging: each network call is one callback with any result.
- Progress handlers: their chaining when downloads are merged is that of the completions, which is modelled.
- RequestModel: a missing project ID or API key, which is answered with an error at once and reaches nothing else, is not modelled.
- Interleavings inside `ModelDownloadTask`: steps are atomic. Queued removals may be delayed for any time; replies are recorded when they are handed to the main queue.
- Several apps sharing one `UserDefaults`, whose keys are joined by dots: the store is that of one app. A file on disk is known by the task that wrote it, and what the system does to files by itself is not modelled.
- File names with `/`; `ModelFileNames` speaks of the last path component.
- Loading podspecs through CocoaPods: a directory is a map from file name to specs and subspecs; a missing root file, which raises, is a precondition; pod names have no line breaks; the arguments and the thread that runs the lint command.
- Xcodeproj: references, groups and build phases are values; a removed reference is gone from groups and phases, and the order within phases and groups is not kept.
- DiffGroups: the tree of groups is flattened to the directories and references in it, so that the walk over child groups is one over lists.
- DiffTarget: when a target builds several references to one path, which of them the entry records is left open, because their order is.
- AddToProject: which directories the groups made for a new file stand for is left open (`newGroups`), as Xcodeproj makes them.
- Sync: xcconfig files, sorting and saving the project.
- fnmatch patterns: what they match and ignore are arbitrary predicates. A group whose path is a file, which raises, finds nothing. Symbolic links.
- ProcessLines: only the nesting state of the loop over a file, not the checks made on each line.
- Everything that binary_to_array prints around the data lines, and the renderings of make_release_notes: the renderer is any function of a token.
- Objective-C headers, whose bodies are not part of this model; package manifests, proto generators and log tools.
