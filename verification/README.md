# Verified models of the hard parts of a C teaching repository

The repository is a collection of C programs. This project models those that rest on an
algorithm or a protocol whose correctness is not obvious, in the form the programs have: methods
with loops over arrays, classes whose fields are updated, linked nodes that are relinked in place,
and, for the concurrent programs, step systems in which every lock, wait, post, test and update is
a step of its own and any thread may run next.

- **Compiler** (`BoundedStack`, `Infix`, `Translator`, `PostfixCells`, `Evaluator`,
  `CompilerCorrectness`, `LostPushes`, `CompilerLimits`, `Calculator`): the translator from infix to
  postfix text and the evaluator of postfix text in `stack/05test` and `stack/04repolish`, over their
  bounded stack. `Infix.Expr` gives the concrete
  syntax, with every spacing, and the meaning; it does not know of stacks or postfix. The two loops
  are proved to compute `Translation` and `Rpn`, and these two together to compute the meaning.
- **Tree** (`StudentTree`, `TreeBalance`, `TreeSearch`, `TreeHeap`): the search tree of
  `tree/01tree.c` with its balancer, whose turns hang the whole old root under the extreme node of
  the promoted child. The nodes are heap objects; `Hangs` ties them to a tree value that keeps the
  node objects, and each routine is proved to leave exactly the tree its value-level function gives.
- **Shared-memory ring** (`LogRing`, `Counting`): `AI_LogHawk`. One collector without a mutex, any
  number of processors; copying a line is one step for every character.
- **Cycles in lists** (`CycleTheory`, `CycleDetection`): `list/interview/10.c` and `11.c`.
- **Josephus ring** (`JosephusTheory`, `JosephusRing`, `Arithmetic`): `list/joseph/joseph.c`.
- **String search** (`Kmp`): `apue/file_dir/mystat3ai.c`.
- **Thread pools** (`ThreadPools`, `PoolQueues`): `NB666/thread_pool.c`, which drains its queue, and
  `高编项目/thread_pool.c`, which stops at once. The protocol keeps the queue as a sequence;
  `PoolQueues` proves that the linked list and the ring array behave as that sequence.
- **Gateway ring** (`GatewayRing`): the push sections of `高编项目/udp_server.c` and the batch pop
  of `高编项目/cloud_client.c`.
- **Prime mailbox** (`Primes`, `PrimeMailbox`): `apue/pthread/06mutex.c`.
- **Alarm scheduler** (`AlarmTheory`, `AlarmRuns`, `AlarmScheduler`): `NB666/alarm_scheduler.c`, on
  its linked list and over whole runs.
- **Codec, rate limiters, calendar** (`Base64`, `TokenBucket`, `TickBuckets`, `Calendar`):
  `高编项目/base64.c` against section 4 of RFC 4648, `高编项目/token_bucket.c`,
  `apue/pthread/11tbf_thread/tbf.c`, and the weekday formula of `test/mycal.c` against the day count
  of `exercises/10.c`.

A definition that a loop and its specification share is fixed by a law that does not name it:
priorities by the grammar (`Infix.GrammarExactly`), division by its remainder
(`Infix.QuotientExactly`), the timer by the instant it stands for (`AlarmScheduler.RearmedExactly`),
refills by the balance of tokens (`TokenBucket.Balance`, `TickBuckets.SpillsExactly`), acceptance into
the queues by what was offered (`ThreadPools.RefusesExactly`, `GatewayRing.DroppedOnlyWhenFull`).

In every step system `Run` gives the state after an arbitrary schedule, so a lemma about `Run` is a
statement about every reachable state. The invariants are named predicates, kept by every step.

Where the code and its documentation disagree the code is followed. The header
`高编项目/thread_pool.h` has destroying the pool wait until all tasks have run; the code makes each
worker leave at shutdown with tasks still queued. `ThreadPools.StoppingPoolLosesTask` gives such a
run and `ThreadPools.StopsWithWhatIsLeft` says exactly when all tasks are run. A refused call to the
gateway's rate limiter can change a later verdict when the clock has gone back in between, and only
then: `TokenBucket.UnseenExactly`.

Some of what one would expect of the programs is false. A push onto a full operator stack goes
unnoticed. At every capacity from 2 on this can end in an error,
`CompilerLimits.LostPushGivesWrongAnswer`, or in a wrong number with code 0,
`CompilerLimits.LostPushGivesWrongNumber`; with the six entries of `stack/04repolish` the line
`1+((((((2))))))*3` is answered with 9. It can also do no harm: `CompilerLimits.ParenthesesDoNoHarm`,
`CompilerLimits.LossAroundOperator`. When the translator writes the right text all the same is
characterised exactly by `LostPushes.TranslatedExactly`. With the 32 entries of `stack/05test` no line
the program can read loses a push, but its buffer for the postfix text is too small for some:
`Calculator.StaysInsideExactly`, `CompilerLimits.FirstOverrun`, `CompilerLimits.OpenParenthesesOverrun`.
A text that writes nothing puts the terminator before the buffer: `Translator.NothingWrittenExactly`.
The evaluator of `stack/05test` never leaves an unknown character, `Evaluator.RunsForEverExactly`, so
that a line with an open parenthesis can hang the program: `Calculator.StallsExactly`. The draining
pool accepts tasks after shutdown and may never run them: `ThreadPools.LateTasksRunExactly`. Two
callers of `tbf_init` can get one descriptor: `TickBuckets.InitsDifferExactly`.

`dafny verify dfyconfig.toml` checks the whole project.

## Model

| member | source | states |
|---|---|---|
| `BoundedStack.Stack.constructor` | stack/05test/stack.c:5-15 | a new stack is empty and has the capacity asked for |
| `BoundedStack.Stack.Push` | stack/05test/stack.c:27-33 | the value goes on top and 0 is returned; on a full stack nothing changes and -1 is returned |
| `BoundedStack.Stack.Pop` | stack/05test/stack.c:35-41 | the top value is taken off and handed over with 0; on an empty stack nothing changes, the caller's variable neither, and -1 is returned |
| `Infix.GrammarExactly` | stack/05test/main.c:6-17 | what the priorities amount to, operator by operator: a tree is a reading of a text if and only if no operand of `*` or `/` is a sum or difference, the right operand of `*` or `/` is no operation at all, and the right operand of `+` or `-` is no sum or difference |
| `Infix.QuotientRounds` | stack/05test/main.c:166 | division leaves a remainder smaller than the divisor that has no other sign than the dividend |
| `Infix.QuotientExactly` | stack/05test/main.c:166 | and the quotient is the only number of which that is true |
| `Infix.ApplyLaws` | stack/05test/main.c:155-168 | what the four operators do, by laws: the difference takes the second operand from the first, the quotient undoes the product, only a zero divisor has no result |
| `Translator.RejectsUnknownCharacters` | stack/05test/main.c:35-94 | the translator gives its error exactly when the text holds a character that belongs to no expression, whatever the parentheses and the stack do |
| `Translator.CellsAreOutput` | stack/05test/main.c:35-104 | without an error the cells of the buffer that are written are exactly those of the output |
| `Translator.CellsBound` | stack/05test/main.c:35-102 | in every state of the loop, for every input, with or without an error: never fewer cells than are written already, never more than two for every character still to come or waiting |
| `Translator.OutputLength` | stack/05test/main.c:35-102 | so at most twice the input is written, separators included |
| `Translator.NothingWrittenExactly` | stack/05test/main.c:104 | nothing is written, and the terminator would go before the buffer, exactly on the texts a scan of the parentheses finds: each open one closed, operators only where their push is lost |
| `Translator.OnlyClosedParentheses` | stack/05test/main.c:104 | when no push is lost these are the texts of spaces and parentheses only in which every open one is closed |
| `Translator.EmptyParentheses` | stack/05test/main.c:104 | two such texts: an empty pair of parentheses, and three spaces |
| `Translator.NoNulWritten` | stack/05test/main.c:43-102 | no terminator is ever written inside the output |
| `Translator.StrayCloseIsEnd` | stack/05test/main.c:57-69 | a closing parenthesis without an open one writes out what waits, as the end of the text does, and the rest is translated as if it stood alone |
| `Translator.CopyDigits` | stack/05test/main.c:43-51 | exactly the whole number that starts here is copied, with one separator behind it |
| `Translator.CloseParen` | stack/05test/main.c:57-69 | the buffer and the stack become what unwinding to the innermost open parenthesis gives |
| `Translator.PopBefore` | stack/05test/main.c:70-84 | operators leave while they bind at least as tightly, by the priorities that GrammarExactly spells out; the last one popped, if it does not, is back on the stack |
| `Translator.Flush` | stack/05test/main.c:95-102 | everything left on the stack is written out |
| `Translator.TranslateNext` | stack/05test/main.c:42-93 | one turn of the loop leaves the rest of the translation and the cells it needs unchanged and writes nothing beyond them, or recognises an unknown character |
| `Translator.InfixToPostfix` | stack/05test/main.c:19-107 | on every text whose output fits and is not empty the buffer ends up holding the translation as a terminated string and -2 is returned exactly on the error; exactly the cells counted are written, the others are untouched |
| `Evaluator.ReadNumber` | stack/05test/main.c:131-139 | reads the whole number and computes its decimal value |
| `Evaluator.Operate` | stack/05test/main.c:141-170 | two operands are replaced by the result in the right order, the quotient being the one of QuotientExactly, or the error code says which operand is missing or that the divisor is zero |
| `Evaluator.Finish` | stack/05test/main.c:172-187 | the final codes 0, -5 and -6, and what is stored through the result pointer in each case |
| `Evaluator.CodesByExample` | stack/05test/main.c:123-184 | on stacks of two entries and more: the shortest texts that end in -2, -3, -4, -5, -6 and -7; 5-3 is 2, 7/2 is 3, -7/2 is -3, and the digits 207 are two hundred and seven |
| `Evaluator.Repolish04` | stack/04repolish/main.c:6-75 | on every string it halts with the code and the stored result of the machine |
| `Evaluator.UnknownExactly` | stack/05test/main.c:125-170 | an unknown character is reached exactly when the text before the first one does not end the evaluation with -2, -3 or -4 |
| `Evaluator.TurnStandsStill` | stack/05test/main.c:123-171 | one turn of the loop changes nothing exactly at an unknown character |
| `Evaluator.RunsForEverExactly` | stack/05test/main.c:123-188 | the evaluator runs for ever on exactly those texts; on all others it stops with the code and stored result of the machine |
| `Evaluator.StuckAtFirst` | stack/05test/main.c:123-171 | on a text of one unknown character the loop stands at it after any number of turns |
| `Evaluator.EvaluateNext` | stack/05test/main.c:125-170 | one turn moves the position and the stack as the machine does |
| `Evaluator.Repolish05` | stack/05test/main.c:109-188 | on every text that does not stall it: the code and result of the machine, after as many turns as the machine takes |
| `CompilerCorrectness.TranslateExpr` | stack/05test/main.c:35-94 | reading the text of any expression in any context writes one part of its postfix form and leaves the other pending on the stack, and no push is lost exactly when there is room for its operator peak |
| `CompilerCorrectness.EvaluateExpr` | stack/05test/main.c:123-171 | evaluating the postfix form of any expression in any context pushes its value, or stops with -4 when it has none |
| `CompilerCorrectness.NumPeakExactly` | stack/05test/main.c:123-171 | evaluating an expression that has a value loses no push if and only if there is room for its operand peak |
| `CompilerCorrectness.LastSpaceIsIdle` | stack/05test/main.c:104 | overwriting the last separator makes no difference to the evaluator, on any text |
| `CompilerCorrectness.TranslatesToPostfix` | stack/05test/main.c:19-107 | a well-formed text is translated to its postfix form; no push is lost if and only if the stack has room for the peak |
| `CompilerCorrectness.PostfixIsEvaluated` | stack/05test/main.c:109-188 | the postfix form, without its last separator, is evaluated to the value, or to -4 exactly when a divisor is zero, given room for the operands |
| `CompilerCorrectness.NumPeakByOpPeak` | stack/05test/main.c:35-171 | the operand peak is at most the operator peak, but for small expressions, so from three entries on the operators decide |
| `CompilerCorrectness.CompilerIsCorrect` | stack/05test/main.c:19-188 | translator and evaluator together give the value of every well-formed expression, and -4 exactly when evaluating it divides by zero, given room for the operators; the grammar is the one of GrammarExactly and `/` the one of QuotientExactly |
| `LostPushes.TranslatedExactly` | stack/05test/main.c:19-107 | at every capacity the postfix form of a well-formed text is written if and only if a scan finds every lost push harmless: at every number the same operators wait as on a stack that loses nothing |
| `LostPushes.FittingIsHarmless` | stack/05test/stack.c:27-33 | an expression that fits loses nothing |
| `LostPushes.HarmlessLossesAnswer` | stack/05test/main.c:19-188 | with harmless losses the answer is right, given room for the operands |
| `LostPushes.LostOperatorShortens` | stack/05test/main.c:85 | a lost operator is never harmless: what is written is at least two cells too short |
| `CompilerCorrectness.TextDeterminesValue` | stack/05test/main.c:6-17 | the grammar is unambiguous in meaning: all readings of one text have one value and one postfix form |
| `CompilerCorrectness.PeaksByDepth` | stack/05test/main.c:70-87 | nesting depth bounds both stack peaks, by the binding strength of the outermost operator |
| `CompilerCorrectness.StackHeights` | stack/05test/main.c:35-171 | with depth d no push finds 3d+2 operators or 2d+3 operands on its stack |
| `CompilerCorrectness.TenLevelsFit` | stack/05test/stack.h:4 | with 32 entries every expression nested at most ten deep is answered correctly |
| `CompilerCorrectness.OneLevelFits` | stack/04repolish/stack.h:4 | with 6 entries every expression nested at most once is answered correctly |
| `CompilerCorrectness.PostfixLength` | stack/05test/main.c:43-85 | the postfix form takes one cell for every digit and number and two for every operator |
| `CompilerCorrectness.CellsExactly` | stack/05test/main.c:43-104 | so many cells are written, and never none |
| `CompilerCorrectness.PeaksByLength` | stack/05test/main.c:35-171 | a text is longer than the operator stack it needs and about twice as long as the operand stack |
| `CompilerCorrectness.LinesFitTheStacks` | stack/05test/main.c:192-199 | so every well-formed line the program can read is answered correctly as far as the stacks go, however deep it is nested |
| `PostfixCells.CellsOfText` | stack/05test/main.c:35-104 | every text of characters the translator knows takes at most one cell for every digit and number and two for every operator and every parenthesis left open; two fewer when an operator is lost, exactly as many when no push is |
| `PostfixCells.ShortTextsFit` | stack/05test/stack.c:27-33 | a text no longer than the room on the stack loses no push, so no line of the 32-entry program does |
| `PostfixCells.CellsBeforeForeign` | stack/05test/main.c:87-93 | at an unknown character the translator has written what belongs before it, less what is still on its stack |
| `PostfixCells.CellsOfLine` | stack/05test/main.c:190-205 | so the cells of any line at all can be read off the line |
| `PostfixCells.ParenWrittenExactly` | stack/05test/main.c:96-102 | when no push is lost a parenthesis is written into the postfix text exactly when one is left open |
| `Calculator.StaysInsideExactly` | stack/05test/main.c:190-205 | for every line the program can read, well-formed or not, known characters or not: it stays inside its 32 cells if and only if that count is at most 32 |
| `Calculator.WellFormedStaysInside` | stack/05test/main.c:190-205 | on well-formed lines the count is digits, numbers and twice the operators |
| `Calculator.UnknownIsParen` | stack/05test/main.c:141-170 | in what the translator writes only a parenthesis is unknown to the evaluator |
| `Calculator.StallsExactly` | stack/05test/main.c:190-212 | a line of known characters makes the program run for ever if and only if it leaves a parenthesis open and what goes out before raises no error |
| `Calculator.Calculate` | stack/05test/main.c:190-217 | on every line on which it neither leaves its buffer nor runs for ever, by the conditions above: the exit code and the number printed are those of translator and evaluator, and on a well-formed line the number is its value, or none when it has none |
| `Calculator.WellFormedIsCalculated` | stack/05test/main.c:190-217 | every well-formed line writes something and does not run for ever |
| `Calculator.CalculateSmall` | stack/04repolish/main.c:156-188 | the same for the program with six entries on every line on which it stays inside its buffer |
| `CompilerLimits.BoundsAreReached` | stack/05test/main.c:52-87 | at every depth some expression needs exactly 3d+2 operators and 2d+3 operands |
| `CompilerLimits.SmallerStackOverflows` | stack/05test/stack.c:27-33 | on that expression the translator loses a push exactly with fewer than 3d+2 entries and the evaluator exactly with fewer than 2d+3 |
| `CompilerLimits.OnesSize` | stack/05test/main.c:43-87 | the sum of n+1 ones has 2n+1 characters and takes 4n+2 cells |
| `CompilerLimits.NineOnesOverrun` | stack/05test/main.c:192-205 | from nine ones on these lines can be read and overrun the buffer |
| `CompilerLimits.FirstOverrun` | stack/05test/main.c:193-205 | for `1+1+1+1+1+1+1+1+1` 34 cells are written where there are 32 |
| `CompilerLimits.OpenParenthesisStalls` | stack/05test/main.c:96-102 | a parenthesis left open in front of any expression that has a value is written out, and the evaluator then runs for ever |
| `CompilerLimits.LostPushGivesWrongAnswer` | stack/05test/main.c:52-87 | at every capacity from 2 on there is a well-formed text of value 3 that ends in the error -6 |
| `CompilerLimits.LostPushGivesWrongNumber` | stack/04repolish/main.c:114-139 | at every capacity from 2 on there is a well-formed text of value 7 that is answered with code 0 and 9 |
| `CompilerLimits.SixDeepIsWrong` | stack/04repolish/stack.h:4 | with six entries `1+((((((2))))))*3` is such a line, and it fits the buffers |
| `CompilerLimits.ParenthesesDoNoHarm` | stack/05test/main.c:52-69 | any number of parentheses around a number is answered rightly at every capacity, although all but the first few are lost |
| `CompilerLimits.LossAroundOperator` | stack/05test/main.c:52-87 | from capacity 2 on a parenthesis lost around an operator may do no harm either |
| `CompilerLimits.OpenParenthesesOverrun` | stack/05test/main.c:193-205 | seventeen and more open parentheses overrun the buffer |
| `TreeBalance.HangAtMinInOrder` | tree/01tree.c:142-149 | hanging a subtree under the minimum puts it in front of the whole in-order sequence |
| `TreeBalance.HangAtMaxInOrder` | tree/01tree.c:151-158 | hanging a subtree under the maximum puts it behind the whole in-order sequence |
| `TreeBalance.TurnKeepsOrder` | tree/01tree.c:142-158 | a turn changes neither the in-order sequence nor the size |
| `TreeBalance.TurnNarrows` | tree/01tree.c:165-173 | the part between the nearest too-left and too-right roots gets strictly smaller at each turn, even when the turn overshoots |
| `TreeBalance.LoopEnds` | tree/01tree.c:165-173 | the endless-looking loop ends with a level root on every tree, within as many turns as there are nodes |
| `TreeBalance.BalanceKeepsOrder` | tree/01tree.c:160-176 | balancing changes neither the in-order sequence nor the size |
| `TreeBalance.BalanceLevels` | tree/01tree.c:160-176 | afterwards the subtree sizes at every node differ by at most one |
| `TreeBalance.LevelTreesAreLow` | tree/01tree.c:166-168 | a tree level everywhere of height h has at least 2^(h-1) nodes |
| `TreeBalance.BalancedHeight` | tree/01tree.c:160-176 | so the balanced tree is as low as its size allows |
| `TreeBalance.BalanceIsIdempotent` | tree/01tree.c:165-169 | a tree that is level everywhere is left as it is |
| `TreeSearch.InsertSplices` | tree/01tree.c:23-37 | insertion puts one node into the in-order sequence and moves no other |
| `TreeSearch.InsertPositionIsSorted` | tree/01tree.c:33-36 | in a sorted tree it goes before the first id that is not smaller |
| `TreeSearch.InsertKeepsSorted` | tree/01tree.c:23-37 | insertion keeps the order, also with repeated ids |
| `TreeSearch.DeleteSplices` | tree/01tree.c:91-114 | a successful deletion takes one node with that id out of the in-order sequence and moves no other |
| `TreeSearch.DeleteFindsIds` | tree/01tree.c:96-103 | deletion fails exactly when the id is not in the tree |
| `TreeSearch.DeleteKeepsSorted` | tree/01tree.c:91-114 | deletion keeps the order |
| `TreeSearch.FindInOrder` | tree/01tree.c:61-71 | search succeeds exactly on the ids in the tree and gives a node with that id |
| `TreeSearch.StepKeepsBag` | tree/01tree.c:23-176 | each operation keeps the order and changes the multiset of ids as it should |
| `TreeSearch.RunIsCorrect` | tree/01tree.c:23-176 | over every sequence of inserts, deletes and balances the tree stays sorted, holds exactly the ids inserted less one for each successful delete, and search succeeds exactly on those |
| `TreeHeap.FindNode` | tree/01tree.c:61-71 | on the linked nodes: the node the value-level search gives, or null |
| `TreeHeap.FindMax` | tree/01tree.c:73-80 | the last node of the right spine, whose right link is free; null on an empty tree |
| `TreeHeap.FindMin` | tree/01tree.c:82-89 | the last node of the left spine, whose left link is free; null on an empty tree |
| `TreeHeap.GetNum` | tree/01tree.c:135-140 | the number of nodes |
| `TreeHeap.InsertNode` | tree/01tree.c:23-37 | relinking in place gives exactly the tree of the value-level insertion, with one new node holding the record |
| `TreeHeap.TurnRootLeft` | tree/01tree.c:142-149 | relinking in place gives exactly the left-turned tree |
| `TreeHeap.TurnRootRight` | tree/01tree.c:151-158 | relinking in place gives exactly the right-turned tree |
| `TreeHeap.TurnRoot` | tree/01tree.c:169-172 | the turn is chosen by the side that is too heavy |
| `TreeHeap.SettleRoot` | tree/01tree.c:165-173 | the loop ends with the root settled, on the same nodes |
| `TreeHeap.BalanceNodes` | tree/01tree.c:160-176 | relinking in place gives exactly the balanced tree |
| `TreeHeap.FindLink` | tree/01tree.c:93-103 | the search loop reaches the link through which the deletion has to store, or null |
| `TreeHeap.SetLink` | tree/01tree.c:105-108 | storing through that link changes it and nothing else of the tree |
| `TreeHeap.Unlink` | tree/01tree.c:104-110 | the node is replaced by its left subtree with the right one under the maximum |
| `TreeHeap.DeleteNode` | tree/01tree.c:91-114 | relinking in place gives exactly the tree of the value-level deletion and 0, or -1 and no change |
| `TreeHeap.StudentStore.constructor` | tree/01tree.c:21 | the tree starts empty |
| `TreeHeap.StudentStore.Insert` | tree/01tree.c:23-37 | the heap is always the tree of the calls made so far, now with this insertion |
| `TreeHeap.StudentStore.Delete` | tree/01tree.c:91-114 | returns 0 exactly when an id inserted and not yet deleted is asked for |
| `TreeHeap.StudentStore.Find` | tree/01tree.c:61-71 | finds exactly the ids inserted and not yet deleted |
| `TreeHeap.StudentStore.Rebalance` | tree/01tree.c:160-176 | every node is level afterwards and the history accounts for the tree |
| `LogRing.PaddingIsNoText` | AI_LogHawk/collector.c:42 | the padding strncpy adds does not change the string in the field |
| `LogRing.InitialInv` | AI_LogHawk/loghawk.c:31-46 | the initial semaphore values and positions meet the invariant |
| `LogRing.CollectorKeepsInv` | AI_LogHawk/collector.c:34-49 | no step of the collector breaks the invariant, although it takes no mutex |
| `LogRing.ProcessorKeepsCounts` | AI_LogHawk/processor.c:27-49 | no step of a processor breaks the accounting of the three semaphores |
| `LogRing.ReadingKeepsInv` | AI_LogHawk/processor.c:37-40 | every character a processor copies is the one of the line that is next in order |
| `LogRing.AdvancingKeepsInv` | AI_LogHawk/processor.c:41 | moving read_pos takes exactly that line, and no other processor is inside |
| `LogRing.StepKeepsInv` | AI_LogHawk/loghawk.h:60-74 | the invariant is kept by every step of every process |
| `LogRing.RunKeepsInv` | AI_LogHawk/loghawk.c:31-71 | the invariant holds after every schedule, for any number of processors |
| `LogRing.NoOverlap` | AI_LogHawk/collector.c:36-45 | under every interleaving the slot being written is not the slot being read |
| `LogRing.TakenInCollectionOrder` | AI_LogHawk/processor.c:27-49 | under every interleaving the lines taken are the beginning of the file, complete, in order, each by one processor |
| `LogRing.PermitsConserved` | AI_LogHawk/loghawk.c:37-46 | free, filled and in-flight permits always sum to MAX_LOGS, 4096 |
| `LogRing.MutualExclusion` | AI_LogHawk/processor.c:32-45 | at most one processor is in its critical section |
| `LogRing.NoDeadlock` | AI_LogHawk/collector.c:34-49 | in every reachable state some process can take a step, unless the file is read and every line taken |
| `LogRing.StepDoesWork` | AI_LogHawk/processor.c:27-49 | every step that changes anything, of whichever process, lowers a bound on the steps left |
| `LogRing.StepsAreBounded` | AI_LogHawk/processor.c:27-49 | so under every interleaving the processes come to rest |
| `LogRing.EveryLineIsTaken` | AI_LogHawk/collector.c:34-60 | and from every reachable state the run goes on until the file is read and every line has been taken |
| `CycleTheory.ShapeExists` | list/interview/10.c:4-8 | every finite list is a tail followed by a cycle or by the end |
| `CycleTheory.MeetExactly` | list/interview/10.c:13-19 | the pointers meet after k moves if and only if k is a whole number of turns and past the tail |
| `CycleTheory.OnCycleExactly` | list/interview/11.c:1-3 | exactly the nodes past the tail lead back to themselves |
| `CycleTheory.CycleFromShape` | list/interview/11.c:1-3 | the list has a cycle exactly when the shape does, and the node after the tail is its entry |
| `CycleDetection.ShapeIsUnique` | list/interview/10.c:4-8 | tail and cycle length are determined by the list |
| `CycleDetection.Advance` | list/interview/10.c:15-19 | one move either makes the pointers meet on a cycle or keeps the meeting still ahead |
| `CycleDetection.DetectCycle` | list/interview/10.c:9-22 | returns 1 exactly when some reachable node leads back to itself, within tail plus cycle length moves |
| `CycleDetection.MeetAgain` | list/interview/11.c:23-28 | after a meeting, pointers from there and from the head are together first at the entry |
| `CycleDetection.FindEntry` | list/interview/11.c:10-34 | returns the first node from the head that lies on a cycle, null exactly when there is none, within tail plus cycle length moves and tail length further ones |
| `JosephusTheory.SurvivorPosition` | list/joseph/joseph.c:47-56 | the survivor of any circle sits where J(1)=0, J(n)=(J(n-1)+k) mod n says |
| `JosephusTheory.KilledPosition` | list/joseph/joseph.c:47-55 | the one removed in each round sits, in the first circle, where P(n,0)=(k-1) mod n, P(n,i)=(P(n-1,i-1)+k) mod n says |
| `JosephusTheory.FiveByTwo` | list/joseph/joseph.c:47-56 | of five people with every second going, 2, 4, 1 and 5 go in this order and 3 stays |
| `JosephusTheory.KilledAndSurvivor` | list/joseph/joseph.c:47-57 | those who go and the survivor together are everybody, once each |
| `JosephusRing.JosephInsert` | list/joseph/joseph.c:5-27 | builds a single cycle of new nodes numbered 1 to n in order |
| `JosephusRing.LastOf` | list/joseph/joseph.c:45 | finds the node before the first |
| `JosephusRing.SkipOn` | list/joseph/joseph.c:49-50 | counting on turns the circle and changes no link |
| `JosephusRing.Unlink` | list/joseph/joseph.c:51-52 | takes out the node behind; the others are still a single cycle in order |
| `JosephusRing.KillNext` | list/joseph/joseph.c:49-54 | one round removes the person the counting reaches and keeps the ring |
| `JosephusRing.JosephPlay` | list/joseph/joseph.c:38-60 | on any ring, the ids removed, in order, and the survivor are those of the counting-out |
| `JosephusRing.CountsLikeOne` | list/joseph/joseph.c:49-50 | a step below 1 removes the same people in the same order as 1 |
| `JosephusRing.Josephus` | list/joseph/joseph.c:38-60 | for all n >= 1 and k >= 1 the survivor is 1 + J(n,k), the ids removed are 1 + P(n,i) in this order, and removed ids and survivor are a permutation of 1..n; a step below 1 counts like 1 |
| `Kmp.FallBack` | apue/file_dir/mystat3ai.c:231-232 | the longest border is the next candidate; none in between is skipped wrongly |
| `Kmp.Extend` | apue/file_dir/mystat3ai.c:233-235 | the candidate, extended if the character fits, is the longest prefix ending there |
| `Kmp.GetNext` | apue/file_dir/mystat3ai.c:219-239 | every entry is the longest proper border of its prefix; the inner loop turns at most needle-length times in all |
| `Kmp.MyKmp` | apue/file_dir/mystat3ai.c:241-267 | returns the first occurrence, -1 exactly when there is none; the inner loop turns at most buffer-length times in all |
| `ThreadPools.SignalTarget` | NB666/thread_pool.c:109 | a signal wakes one sleeper, any one, and is lost only when nobody sleeps |
| `ThreadPools.StepKeepsLock` | NB666/thread_pool.c:29-56 | exactly the holder of the lock is between lock and unlock |
| `ThreadPools.StepKeepsQueue` | NB666/thread_pool.c:46-53 | what was accepted is what was started followed by what is queued; a worker past the wait has a task or a shutdown |
| `ThreadPools.StepKeepsShutdown` | NB666/thread_pool.c:118-126 | nobody sleeps after the broadcast, nobody leaves before shutdown or, draining, before the tasks accepted by then |
| `ThreadPools.StepKeepsRuns` | NB666/thread_pool.c:56-61 | every task taken out is in the hands of exactly one worker until it has run, once |
| `ThreadPools.StepKeepsWake` | NB666/thread_pool.c:35-37 | no step loses a wakeup |
| `ThreadPools.RunKeepsInv` | NB666/thread_pool.c:25-131 | all of these hold after every run of either pool, with any number of workers and adding threads and with spurious wakeups |
| `ThreadPools.StartedInOrder` | NB666/thread_pool.c:45-59 | in both pools tasks are started in the order accepted and run at most once |
| `ThreadPools.EveryOfferIsAnswered` | 高编项目/thread_pool.c:93-124 | over every run of either pool, each task that a call to add came in with is accepted or refused once, but for the one of a call still deciding |
| `ThreadPools.NeverRefuses` | NB666/thread_pool.c:87-113 | the draining pool refuses nothing: what it has accepted is what it was offered, in that order |
| `ThreadPools.RefusesExactly` | 高编项目/thread_pool.c:98-108 | in every reachable state the stopping pool refuses a task if and only if as many tasks as its capacity are accepted and not started or it is shut down; either pool puts every other task behind the queued ones, and no other step accepts or refuses any |
| `ThreadPools.NoLostWakeup` | 高编项目/thread_pool.c:30-33 | in every reachable state of either pool: if somebody sleeps, the queued tasks number at most the workers awake and on their way plus the signal about to be sent; after the broadcast of shutdown nobody sleeps |
| `ThreadPools.QueuedTaskIsNoticed` | NB666/thread_pool.c:106-110 | while the pool is open and a task is queued, a worker or a thread in the middle of adding can take a step, and unless a signal is due some worker is awake |
| `ThreadPools.ServeDoesWork` | 高编项目/thread_pool.c:27-51 | in an open pool every step but a new call lowers a bound on the steps left |
| `ThreadPools.ServingIsBounded` | 高编项目/thread_pool.c:27-51 | so without new calls every schedule comes to rest |
| `ThreadPools.EveryTaskRuns` | NB666/thread_pool.c:28-61 | and from every reachable state of either pool, while it is open, every accepted task gets run exactly once; every task offered is then accepted or refused, and in the draining pool accepted |
| `ThreadPools.JoinNeverHangs` | NB666/thread_pool.c:128-131 | after the broadcast, until destroy has returned, some thread can take a step other than a new call to add, and no worker sleeps, in either pool |
| `ThreadPools.StepDoesWork` | 高编项目/thread_pool.c:138-141 | after the broadcast every such step lowers a bound on the steps left |
| `ThreadPools.FinishingIsBounded` | 高编项目/thread_pool.c:138-141 | so without new calls every schedule comes to an end |
| `ThreadPools.DestroyReturns` | NB666/thread_pool.c:115-145 | from every reachable state of either pool destroy can be called and returns, with all workers gone |
| `ThreadPools.LateTasksRunExactly` | NB666/thread_pool.c:87-113 | the draining pool accepts tasks after shutdown: once all workers are gone a task has run if and only if it was accepted before the last worker decided to leave |
| `ThreadPools.DrainingPoolLosesLateTask` | NB666/thread_pool.c:87-113 | a run in which a task accepted after shutdown is never run |
| `ThreadPools.DrainsBeforeJoin` | NB666/thread_pool.c:39-63 | draining pool: once all workers are gone every task accepted before shutdown has run exactly once |
| `ThreadPools.StopsWithWhatIsLeft` | 高编项目/thread_pool.c:35-39 | stopping pool: once all workers are gone every accepted task has run exactly once if and only if the queue was empty at shutdown |
| `ThreadPools.StoppingPoolLosesTask` | 高编项目/thread_pool.h:34-38 | a run after which all workers are gone and an accepted task was never started |
| `PoolQueues.TaskRing.constructor` | 高编项目/thread_pool.c:63-69 | the ring starts empty with its capacity |
| `PoolQueues.TaskRing.Add` | 高编项目/thread_pool.c:98-117 | the task goes to the back of the queue; -1 and no change when full or shutting down |
| `PoolQueues.TaskRing.Take` | 高编项目/thread_pool.c:41-45 | the oldest task comes out and the rest stay in order |
| `PoolQueues.TaskList.Add` | NB666/thread_pool.c:94-106 | the task goes to the back of the linked queue |
| `PoolQueues.TaskList.Take` | NB666/thread_pool.c:45-53 | the oldest task comes out of the linked queue and the rest stay in order |
| `GatewayRing.FullExactly` | 高编项目/udp_server.c:104-105 | the test finds the ring full exactly when 1023 records are queued |
| `GatewayRing.StepKeepsInv` | 高编项目/udp_server.c:103-116 | mutex, ring, semaphore and batch invariants are kept by every step |
| `GatewayRing.RunKeepsInv` | 高编项目/udp_server.c:103-155 | they hold after every run with any number of pushing tasks |
| `GatewayRing.PopFindsRecord` | 高编项目/cloud_client.c:33-41 | a permit waited for promises a record |
| `GatewayRing.SemaphoreCountsRecords` | 高编项目/cloud_client.c:23-43 | in every reachable state the records queued are the semaphore value plus those not yet posted plus the permit held, so no pop finds the ring empty |
| `GatewayRing.NoneStranded` | 高编项目/udp_server.c:103-116 | in every reachable state that is not quiet the uploading thread or a task in the middle of a push can take a step |
| `GatewayRing.StepDoesWork` | 高编项目/cloud_client.c:23-43 | each such step lowers a bound on those left |
| `GatewayRing.DrainingIsBounded` | 高编项目/cloud_client.c:23-43 | so without a new push every schedule comes to rest |
| `GatewayRing.EveryRecordIsUploaded` | 高编项目/cloud_client.c:23-56 | and from every reachable state everything pushed gets handed to the upload, in push order; what the tasks came in with is then uploaded or dropped |
| `GatewayRing.LeaveInPushOrder` | 高编项目/cloud_client.c:30-43 | records leave once each in push order, in batches of 1 to 50 |
| `GatewayRing.ClosesExactly` | 高编项目/cloud_client.c:38-43 | a batch is closed exactly when it holds 50 records or every record left has not been posted yet |
| `GatewayRing.EveryOfferIsAnswered` | 高编项目/udp_server.c:103-116 | when no task is in the middle of a push, every record a task came in with has been pushed or dropped, once |
| `GatewayRing.DroppedOnlyWhenFull` | 高编项目/udp_server.c:139-155 | in every reachable state a record is turned away if and only if 1023 are queued, and no other step drops one |
| `Primes.SmallestFactorIsSmall` | apue/pthread/06mutex.c:37-42 | a number without a divisor up to its square root has none at all |
| `Primes.IsPrime` | apue/pthread/06mutex.c:26-43 | returns 1 exactly on the primes, for every integer |
| `PrimeMailbox.StepKeepsInv` | apue/pthread/06mutex.c:45-74 | the mailbox invariant is kept by every step of every thread |
| `PrimeMailbox.RunKeepsInv` | apue/pthread/06mutex.c:90-131 | it holds after every run with any number of workers |
| `PrimeMailbox.HandedOnce` | apue/pthread/06mutex.c:101-115 | each number goes to exactly one worker, in order |
| `PrimeMailbox.NoDeadlock` | apue/pthread/06mutex.c:55-127 | in every reachable state, until all workers are gone, some thread has a step that brings the end nearer: less to place or take, or fewer steps to the next of it; polling does not count |
| `PrimeMailbox.EveryPrimeIsReported` | apue/pthread/06mutex.c:45-131 | from every reachable state the run can go on until all workers are gone and exactly the primes of the range have been reported |
| `PrimeMailbox.ReportsExactlyThePrimes` | apue/pthread/06mutex.c:45-131 | when all workers are gone all numbers have been handed out and exactly the primes of the range reported, once each, for any number of workers |
| `AlarmTheory.Position` | NB666/alarm_scheduler.c:36-42 | a task goes behind those due no later and before the first due strictly later |
| `AlarmTheory.InsertKeepsSorted` | NB666/alarm_scheduler.c:26-43 | insertion keeps the list in deadline order |
| `AlarmTheory.InsertAdds` | NB666/alarm_scheduler.c:26-43 | insertion adds exactly that entry |
| `AlarmTheory.RefiledIsLessDue` | NB666/alarm_scheduler.c:70-85 | each turn of the handler leaves strictly fewer due entries, so it ends |
| `AlarmTheory.DuePartIsDue` | NB666/alarm_scheduler.c:69-70 | in a sorted list the due entries are those at the front |
| `AlarmTheory.HandlerFiresTheDue` | NB666/alarm_scheduler.c:69-86 | one run of the handler fires exactly the due entries, once each, in list order |
| `AlarmTheory.HandlerLeavesNothingDue` | NB666/alarm_scheduler.c:69-86 | it leaves a sorted list with nothing due |
| `AlarmTheory.HandlerKeepsTheRest` | NB666/alarm_scheduler.c:78-85 | what it leaves is the entries that were not due and the renewed periodic ones; tasks that run once are gone |
| `AlarmTheory.HandlerLeaves` | NB666/alarm_scheduler.c:78-85 | entry by entry: an entry is left if and only if it was there and not due, or is a due periodic task filed for now plus its interval |
| `AlarmRuns.FireAllHarvests` | NB666/alarm_scheduler.c:69-86 | numbering the filings does not change what the handler leaves |
| `AlarmRuns.AlarmLogsTheDue` | NB666/alarm_scheduler.c:69-86 | one alarm fires exactly the due entries in list order and keeps the invariant |
| `AlarmRuns.RunIsGood` | NB666/alarm_scheduler.c:64-109 | over every run the list is ordered by deadline and, among equal deadlines, by filing, without repetitions, and every next firing is late enough |
| `AlarmRuns.FiresInFilingOrder` | NB666/alarm_scheduler.c:36-43 | in every alarm of every run exactly the due tasks fire, once each, by deadline with ties in the order of filing |
| `AlarmRuns.FilingTakesLargestNumber` | NB666/alarm_scheduler.c:78-81 | every filing, first or renewed, gets a number larger than all given before |
| `AlarmRuns.FiringsAreSpaced` | NB666/alarm_scheduler.c:78-81 | over every run two firings of one task are at least its interval apart, and a one-shot fires at most once, even if the clock jumps |
| `AlarmRuns.NothingLeftDue` | NB666/alarm_scheduler.c:64-88 | after every alarm of every run the list is sorted with nothing due |
| `AlarmRuns.AlarmLeaves` | NB666/alarm_scheduler.c:64-88 | after every alarm of every run exactly these entries are listed |
| `AlarmScheduler.FindPlace` | NB666/alarm_scheduler.c:36-40 | the cursor stops at the last task due no later |
| `AlarmScheduler.InsertTaskOrdered` | NB666/alarm_scheduler.c:26-43 | relinking in place gives exactly the list of the value-level insertion |
| `AlarmScheduler.LinkFirst` | NB666/alarm_scheduler.c:30-34 | the most urgent task becomes the head |
| `AlarmScheduler.LinkAfter` | NB666/alarm_scheduler.c:41-42 | the task is linked in behind the cursor |
| `AlarmScheduler.Expire` | NB666/alarm_scheduler.c:71-85 | the first task leaves the list and comes back with its new deadline exactly when it is periodic |
| `AlarmScheduler.Delay` | NB666/alarm_scheduler.c:50-51 | overdue work is asked for after exactly one millisecond, other work at its deadline |
| `AlarmScheduler.TimerFor` | NB666/alarm_scheduler.c:53-60 | seconds and microseconds together are that delay, the microseconds below a million; without tasks the timer is left alone |
| `AlarmScheduler.RearmedExactly` | NB666/alarm_scheduler.c:46-61 | said without the delay: nothing listed leaves the timer alone, a head due by now sets it to 0 seconds and 1000 microseconds, a later one to the microseconds from now to its deadline; one value only meets this |
| `AlarmScheduler.CallbacksInOrder` | NB666/alarm_scheduler.c:74-76 | tasks that all have a callback have them called in their order, once each |
| `AlarmScheduler.CallbacksPassOver` | NB666/alarm_scheduler.c:74-76 | a task without a callback is passed over |
| `AlarmScheduler.Scheduler.RearmHardwareTimer` | NB666/alarm_scheduler.c:46-61 | the timer is set for the earliest deadline, to one millisecond when it has passed, in literal seconds and microseconds; an empty list leaves it alone |
| `AlarmScheduler.Scheduler.Harvest` | NB666/alarm_scheduler.c:69-86 | the loop on the linked list leaves exactly the harvested list and calls the callbacks of the fired tasks in order |
| `AlarmScheduler.AlarmRecorded` | NB666/alarm_scheduler.c:64-88 | the history of calls accounts for the list and for the firings of the alarm |
| `AlarmScheduler.Scheduler.FireDue` | NB666/alarm_scheduler.c:67-86 | exactly the callbacks of the due tasks are called, nothing due is left, and the list stays the one of the history |
| `AlarmScheduler.Scheduler.AlarmHandler` | NB666/alarm_scheduler.c:64-88 | exactly the due tasks are called, nothing due is left, the timer is set as RearmedExactly says for what remains; another signal does nothing; the list stays the one of the history, so every property of runs holds of it |
| `AlarmScheduler.Scheduler.AddTask` | NB666/alarm_scheduler.c:91-109 | a new task is filed for now plus its delay and the timer set as RearmedExactly says for the earliest deadline; the list stays the one of the history |
| `Base64.EncodedIsStandard` | 高编项目/base64.c:31-62 | the encoding is that of section 4 of RFC 4648, defined on the stream of bits, for every byte string |
| `Base64.QuadRoundTrip` | 高编项目/base64.c:79-91 | one group of one to three octets survives encoding and decoding |
| `Base64.RoundTrip` | 高编项目/base64.c:25-95 | decoding undoes encoding for every byte string; the length is 4*ceil(n/3) |
| `Base64.StandardIsDecoded` | 高编项目/base64.c:73-95 | the decoder recovers every input from its RFC 4648 encoding |
| `Base64.VectorsOfTheStandard` | 高编项目/base64.c:8-9 | the first examples of section 10 of RFC 4648: `Zg==`, `Zm8=` and `Zm9v` |
| `Base64.QuadBits` | 高编项目/base64.c:79-91 | whatever four characters are decoded: three octets, or one or two before a pad character, of the bits of their positions in order, the bits left over dropped |
| `Base64.ForeignIsOnes` | 高编项目/base64.c:18-23 | a character outside the alphabet counts as six one bits |
| `Base64.MyStrlen` | 高编项目/base64.c:11-16 | the length of every string that is not empty |
| `Base64.StrchrOfNum` | 高编项目/base64.c:18-23 | the position of a character in the alphabet, -1 when it is not there |
| `Base64.EncodeRound` | 高编项目/base64.c:33-61 | one turn appends the four characters of one group, and is the last exactly when the group is short or ends the input |
| `Base64.Encode` | 高编项目/base64.c:25-65 | dest holds exactly the RFC 4648 encoding of src as a terminated string |
| `Base64.DecodeRound` | 高编项目/base64.c:79-91 | one turn appends the one to three octets of one group |
| `Base64.Decode` | 高编项目/base64.c:73-95 | dest holds the decoding of src followed by a terminator |
| `TokenBucket.GrantedAtMost` | 高编项目/token_bucket.c:29-55 | over any calls: granted plus remaining is at most initial plus what the elapsed time adds; tokens stay between 0 and the capacity |
| `TokenBucket.WindowBoundByClock` | 高编项目/token_bucket.c:33-51 | over any window, whatever came before, at most capacity + rate * elapsed / 1000 is granted |
| `TokenBucket.WindowBound` | 高编项目/token_bucket.c:33-51 | the same by the bucket's own time, for a clock that may go back |
| `TokenBucket.Balance` | 高编项目/token_bucket.c:29-55 | the exact balance over any calls and any clock: granted, remaining and spilled add up to what there was and rate * elapsed / 1000 |
| `TokenBucket.SpilledAt` | 高编项目/token_bucket.c:40-43 | tokens are lost only by a refill that leaves the bucket full |
| `TokenBucket.GrantedExactly` | 高编项目/token_bucket.c:34-51 | a call is granted if and only if it asks for no more than the capacity and no more than the tokens and rate * elapsed / 1000; what is left is stated too |
| `TokenBucket.WaitingPays` | 高编项目/token_bucket.c:34-51 | whatever came before, once the time for `count` tokens at the rate has passed they are granted, up to the capacity |
| `TokenBucket.RefillInBetween` | 高编项目/token_bucket.c:34-44 | refilling on the way makes no difference to refilling at the end |
| `TokenBucket.RefusalsLeaveNoTrace` | 高编项目/token_bucket.c:46-54 | without the refused calls all others are granted again and leave a bucket no later call can tell apart |
| `TokenBucket.ClockStepsBack` | 高编项目/token_bucket.c:32-44 | for every step back of the clock, a bucket where a refused call changes the next verdict |
| `TokenBucket.UnseenExactly` | 高编项目/token_bucket.c:32-51 | refused calls never change a later verdict if and only if the clock has not gone back in between |
| `TokenBucket.Bucket.constructor` | 高编项目/token_bucket.c:21-27 | the bucket starts full at the time of the call |
| `TokenBucket.Bucket.Consume` | 高编项目/token_bucket.c:29-55 | new state and verdict are those of the specification; 1 is returned if and only if the count is at most the capacity and at most the tokens and rate * elapsed / 1000 |
| `TickBuckets.Run` | apue/pthread/11tbf_thread/tbf.c:41-64 | over every life of a bucket: tokens stay within 0 and the burst, and tokens held, fetched and spilled are exactly those ticked in and returned |
| `TickBuckets.FetchedAtMost` | apue/pthread/11tbf_thread/tbf.c:154-213 | so no more is ever fetched than cps per tick plus what was returned |
| `TickBuckets.FetchGives` | apue/pthread/11tbf_thread/tbf.c:163-168 | a fetch that does not wait gives what was asked for or empties the bucket, at least one token, and what it gives leaves the bucket |
| `TickBuckets.SpillsExactly` | apue/pthread/11tbf_thread/tbf.c:53-55 | over every life of a bucket tokens are lost if and only if a tick or a return would go beyond the burst, and then the bucket is full; every tick and return counts |
| `TickBuckets.TickEndsWait` | apue/pthread/11tbf_thread/tbf.c:164-165 | a fetch that has to wait can go on after the next tick |
| `TickBuckets.OverlappingInits` | apue/pthread/11tbf_thread/tbf.c:130-139 | when a second caller looks for a descriptor before the first has stored, both take the same one and one bucket is lost |
| `TickBuckets.InitsDifferExactly` | apue/pthread/11tbf_thread/tbf.c:130-139 | two callers get different descriptors if and only if the second looks after the first has stored |
| `TickBuckets.TracksOn` | apue/pthread/11tbf_thread/tbf.c:41-64 | a tick, a fetch and a return change a bucket of the table as they do in its life |
| `TickBuckets.TbfLibrary.FetchedFromTable` | apue/pthread/11tbf_thread/tbf.c:154-213 | of every bucket in the table: its tokens stay within 0 and the burst, and what it has given out is at most cps per tick plus what was returned |
| `TickBuckets.TbfLibrary.GetPos` | apue/pthread/11tbf_thread/tbf.c:30-38 | the smallest free descriptor, -1 exactly when all are in use |
| `TickBuckets.TbfLibrary.Init` | apue/pthread/11tbf_thread/tbf.c:119-145 | the smallest free descriptor gets a new empty bucket and nothing else changes; -1 and -2 on the two errors |
| `TickBuckets.TbfLibrary.TickAll` | apue/pthread/11tbf_thread/tbf.c:47-60 | every bucket in use gets one tick, up to its burst |
| `TickBuckets.TbfLibrary.Fetch` | apue/pthread/11tbf_thread/tbf.c:158-168 | one look at the bucket: takes what is there up to what is asked for, from that bucket only; nothing on an empty one; -1 and -2 on the two errors |
| `TickBuckets.TbfLibrary.FetchToken` | apue/pthread/11tbf_thread/tbf.c:154-180 | the waiting loop: after one tick at most a bucket in use gives what is asked for or all it has, at least one token, and keeps the rest |
| `TickBuckets.TbfLibrary.ReturnToken` | apue/pthread/11tbf_thread/tbf.c:199-213 | gives tokens back to that bucket only, up to its burst |
| `TickBuckets.TbfLibrary.Destroy` | apue/pthread/11tbf_thread/tbf.c:182-196 | frees that descriptor only |
| `Calendar.YearFollows` | test/mycal.c:95-97 | how the century terms of the formula change from one year to the next, by the leap-year rule |
| `Calendar.NextMonth` | test/mycal.c:42-52 | for every month of every year the weekday of the next month is this month's plus its printed length, modulo 7 |
| `Calendar.FormulaCountsDays` | test/mycal.c:89-100 | the closed formula agrees with counting days since the first of January of year 1, for every month of every year |
| `Calendar.FormulaWithinYear` | exercises/10.c:14-17 | within every year the formula agrees with the day count of the table |
| `Calendar.DayOfYear` | exercises/10.c:7-18 | for every year the table, altered for leap years, sums to the lengths of the months before and the day |

## Left out

- Integer widths: `int` and `long` are unbounded, so overflow in the evaluator, the schedulers and the token counts is not modelled. Octets are 8 bits wide.
- Failure of `malloc`, of thread and lock calls, and the early exits for them; `free`: removed nodes just leave the structure.
- Input, output, files, sockets, signals and process control; `tree_draw`, which the turns call; the printing of the calendar page and of the numbers of the Josephus ring, which become results.
- InfixToPostfix: not called on the texts of which it is proved that they overrun the buffer or write before it, by CellsWritten and NothingWrittenExactly; what the program does after such a write is not modelled.
- Calculate: not called on the lines of which StaysInsideExactly, NothingWrittenExactly and StallsExactly prove that the program leaves its buffer or never comes back; what it does after leaving its buffer is not modelled.
- Repolish05: not called on the texts on which RunsForEverExactly proves that it never returns.
- HarmlessLossesAnswer: a text with harmful losses may still be answered with the right number by coincidence; only for what the translator writes is the condition exact.
- The stack is generic, where the source stores characters and numbers as `int`; the two builds become one parameter.
- Postorder display and destruction of the tree; the caller's pointer to the root pointer becomes a root that goes in and a root that comes out.
- TakenInCollectionOrder: lines as `fgets` can return them and without a terminator inside; a line longer than the buffer arrives as several.
- The work of a processor on its copy, its message queue and the outputer of AI_LogHawk; that the processors run for ever.
- LogHawk and LogHawk_2, whose undo of semaphore operations at exit changes the counts.
- FindEntry: reads the misprint `s-next` at `list/interview/11.c:20` as `s->next`.
- Josephus: requires n >= 1; for smaller n the source counts down past zero.
- MyKmp: requires a needle that is not empty; on an empty one the source writes outside its table.
- InsertTaskOrdered: reads the operator split over lines 28 to 30 of `NB666/alarm_scheduler.c` as a logical or.
- AlarmHandler: callbacks are recorded, not called, so they do not touch the list; the readings of the clock are inputs; masking the signal is what makes AddTask one operation.
- A second call of destroy, and calls after the pool has been freed, which the steps of the model do not exclude. A thread may wake without a signal at any time.
- A drain guarantee for `高编项目/thread_pool.c`, which is false: StoppingPoolLosesTask; and exactly-once delivery for `pthread_pool/pool.c`, whose worker waits under `if`.
- The upload of a batch by the gateway, which is lost when the connection fails; parsing of the datagrams.
- ReportsExactlyThePrimes: requires that the first number is positive, since 0 and -1 have meanings in the mailbox; testing a number is one step, proved by Primes.IsPrime.
- Fair scheduling: for the mailbox, whose threads may poll for ever, the end is shown to be reachable from every state; the ring, the pools after shutdown and the gateway come to their end under every schedule without new work.
- Encode: requires text that is not empty, as the source's length routine does not look at the first character, and room in the destination.
- Decode: requires a length that is a multiple of four; on others the source reads past the terminator. What it makes of characters outside the alphabet is modelled.
- TokenBucket: real numbers without rounding where the source uses `double`; its mutex, which makes each call one operation.
- Init: one operation; that its two steps in the source are under no lock, and what comes of it, is OverlappingInits and InitsDifferExactly.
- Fetch: one look under the lock, with None for an empty bucket; FetchToken is the loop around it, in which nobody but the ticking thread comes in between. The locks and condition variables of the buckets and `tbf_destroy_all` are left out.
- Month 0, which the range test at `test/mycal.c:30` lets through and prints with 30 days; years below 1 it refuses.
- `pthread_pool`, the sorts, the small string functions, the other lists, queues and stacks, the hash table and the board game: textbook material that would only add easy members.
