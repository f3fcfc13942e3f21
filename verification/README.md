# Bigbird, proved

A Dafny model of four parts of Bigbird: the JSON library that the web client ships, the stateful algorithms
of its copy of jQuery 1.3.1, the write-ahead command queue, and the timelines and follow graph that the
queued commands maintain. Code that changes things step by step is modelled as methods of classes, or
methods over arrays, proved against functions; what the code is for is then proved about those functions,
for all inputs and all runs. `dafny verify dfyconfig.toml` checks everything.

## The four parts

**JSON (`json/`).** `JsonPrinter` is `quote`, `str` and `JSON.stringify`, with the shared `gap` as a field.
`JsonGuard` is the check that `JSON.parse` makes before `eval`: the rewriting of the `cx` characters and the
four regular expressions, each as a greedy leftmost matcher. `JsonReader` is a reader written from the
grammar in section 2 of RFC 4627, and `JsonGrammar` is that grammar as a relation between texts and values.
`JsonNumbers` gives numbers by their parts. Text is a sequence of 16-bit code units. The printer, the reader
and the guard meet on lists of tokens (`JsonTokens`, `JsonLayout`), and `JsonLaws`, `JsonIndent`,
`GuardScope` and `NumberLaws` have the theorems.
- Reading back the printed text gives the value, for every white-space indent that RFC 4627 knows; for the
  other characters of `\s` exactly when the indent does not show. Members without a JSON form are dropped
  from objects and become null in arrays.
- With an indent the printed text is the compact text in lines: one for every element or member, indented as
  often as brackets are open. The reader takes a text for a value exactly when the grammar does.
- The guard lets every JSON text through, and printed text with any white-space indent exactly when the
  indent has none of the `cx` characters (some of which, such as U+2028, are white space) or does not show.
- In general, the guard accepts a text exactly when, after the rewriting of the `cx` characters, it can be
  cut into strings without raw quotes, backslashes and line ends, the three words, numbers, marks and white
  space, with an opening square bracket only at the start, behind a colon or a comma, or behind another one
  that may stand there. These numbers may have leading zeros and end in their point, and two may stand side
  by side when the second has a minus: `[1-2]` passes.
- The comment at `login.js:70-73` offers `'&nbsp;'` as an indent. With such an indent, the guard accepts
  exactly the texts that do not show it.

**jQuery (`dom/`, `ajax/`).** Links between nodes are an immutable tree; the numbers that scripts hang on
nodes (`elem[doneName]`, `nodeIndex`) are fields that the methods update. The memoised walks of
`dirNodeCheck` and `dirCheck` find for every slot what the naive walk along the links finds, and mark every
element that it visits. A pass of `:nth-child` over a list of elements agrees with the definition in section
6.6.5.2 of Selectors Level 3, whatever numbers earlier passes have left. The effects queue is first in,
first out with one function running. `jQuery.active` counts the outstanding requests over every
interleaving; a request that waits completes exactly when a poll finds its response or its timer fires, and
from every state all requests can be brought to an end. The parser of the `:nth-child` argument raises a
TypeError for exactly the arguments without an `n` that are neither `odd` nor digits; signed integers such
as `+3` and `-2`, which the standard allows, are among them.

**The command queue (`queue/`).** `CommandQueue` has the methods of the two queue classes. `QueueRuns` takes
their steps apart and lets clients, workers, the index executor and the store take turns in any order;
`QueueCalls` shows that every call of a method is a sequence of those steps. A restart replays the stored
range in the order of the ids, each command once. Each accepted command is stored or executed in every
reachable state. Of the accepted commands below the stored maximum that have not been executed, a crash
loses exactly those that were passed over: when the minimum was stored for the last time, the last worker to
write it had a command with this or a later id. Workers that cross in `finishCommand`, which takes no lock,
can also move the minimum back, so that `minimum` is not the highest finished id plus one. After an in-order
run a crash loses an unfinished command exactly when its id is not below the stored maximum, and with timely
fetches none once a maximum has been stored. `QueueLosses` has the runs that lose one: with two workers,
with a command that throws, with two clients overtaking each other, and with a shutdown between the two
halves of a batch fetch, which writes the old maximum back. A fetch that throws leaves `gettingNextBatch`
set, and the maximum never rises again. Commands added by `add` are never deleted from the store, so a
restart may execute them again.

**Timelines and the follow graph (`timeline/`, `follow/`).** A timeline is a list of strings `id:date`, as
the store holds it. The commands split the strings at colons and parse what they find, and the model has the
exceptions of that: a command that throws stores nothing. For tweet ids without a colon, which
`EntryTimeline` covers, the strings can be treated as pairs of an id and a date; user names, and with them
tweet ids, may have a colon. Follower sets are strings with commas, as in `UserSets`.
- `insertTweet` compares with entry 0 in every round, so a tweet is put at the front or at the end. For ids
  without a colon the timeline is newest-first exactly when every tweet, on arrival, was newer than all or
  than none.
- The date of an entry whose author's name has a colon is read from the wrong place. Reading it throws
  except for a few names, such as one that ends in its only colon (`Entries.ReadableExact` says for which).
  As entry 0 of a timeline, such an entry makes every later insertion throw: the second tweet of a user
  called `x:y` never gets into a timeline that the first one opened. Stop-following never removes anything
  for a user with a colon in the name.
- The merge of start-following inserts before the first newer entry. For ids without a colon the result is
  newest-first exactly when the timeline was, and nothing was missing, or all entries and all tweets taken
  in have one date, or the timeline is beyond the cap of 250 and nothing in it is newer than the first
  missing tweet. Whoever starts following with an empty timeline gets the newest tweet last.
- Unless it throws, the merge takes in everything when timeline and missing tweets make at most 251 entries,
  and that bound is exact. At any size a second execution changes nothing exactly when it throws, or nothing
  was left out, or the cap blocks the first tweet that was.
- Stop-following after start-following restores any timeline exactly when it held no entry with the user's
  prefix; for a user with a colon in the name, exactly when start-following changed nothing.
- `AbstractCommandQueue.java:18` asks that commands be idempotent, since they may be executed again after a
  crash. `TweetCommand` first puts the tweet as a new version under its id (`TweetCommand.java:38`), and the
  store refuses that when the id is taken; a refused put ends the command. So no tweet is fanned out twice,
  but a crash between that put and the deliveries is final: the replay is refused, and the tweet never gets
  into any timeline. When all its writes get through, the command has no effect on the timelines exactly
  when that put is refused or the author is missing.
- With tweets in the order of their dates, nobody following themselves and no colon in the names that a user
  sees, fan-out equals the read-time query exactly when no write was refused and every tweet arrived newer
  than all the earlier ones or than none, whatever overlaps.
- `getTweets` with a start behind the last tweet counts down through all negative indices before it wraps
  around. The ids on the way are those of the user whose name has one more dash, so it lists that user's
  tweets from index start - lastTweet up, and then the newest tweets again. A negative start is as good as 0
  until the difference overflows; then the page begins in the same way.
- A start-following command between an existing and a missing user leaves the graph asymmetric. So does one
  between existing users when a name has a comma, because it is read back in pieces; for any names, the
  graph stays symmetric exactly when the two records say the same, piece by piece.

## Model

| member | source | states |
|---|---|---|
| JsonText.UnicodeEscapeDigits | web/src/main/webapp/public/login.js:262 | the padded slice is always backslash, u and the four hexadecimal digits of the code unit |
| JsonText.HexRoundTrip | web/src/main/webapp/public/login.js:259-263 | those four digits denote the code unit again |
| JsonText.HexExact | web/src/main/webapp/public/login.js:259-263 | which characters are hexadecimal digits, of either case, and for which number each stands |
| JsonNumbers.LongestMatch | web/src/main/webapp/public/login.js:500 | the number pattern matches the longest number that a text starts with, by its parts: minus, digits, point with digits, exponent; nothing when there is none |
| JsonNumbers.NumberExact | web/src/main/webapp/public/login.js:446-447 | the numbers of the printer and the reader are exactly those made of the parts of section 2.4 of RFC 4627 |
| JsonPrinter.Stringifier.Str | web/src/main/webapp/public/login.js:268-392 | every call prints what the specification says and leaves gap as it found it |
| JsonPrinter.Stringifier.StringifyValue | web/src/main/webapp/public/login.js:397-437 | the text for the indent that the space argument denotes, whatever the fields held before |
| JsonPrinter.IndentOf | web/src/main/webapp/public/login.js:408-417 | a number of blanks, as many as the number says, none when it is not positive |
| JsonLayout.QuotePiecesMean | web/src/main/webapp/public/login.js:250-265 | quote writes a well-formed string of RFC 4627 that denotes exactly its argument |
| JsonLayout.ShortestEscape | web/src/main/webapp/public/login.js:238-246 | a character that must be escaped and has a short escape gets it |
| JsonLayout.QuoteVerbatim | web/src/main/webapp/public/login.js:250-265 | quote leaves a string as it is exactly when it has no control character, quotation mark, backslash or cx character |
| JsonLayout.PrintSpellsLayout | web/src/main/webapp/public/login.js:268-392 | the printed text is the spelling of a list of tokens |
| JsonLayout.NonBlankLayout | web/src/main/webapp/public/login.js:329-390 | without the blanks these are the tokens of the compact text, whatever the indent |
| JsonReader.LexSound | web/src/main/webapp/public/login.js:446-447 | whatever the lexer of the grammar returns is well-formed and spells the text |
| JsonReader.LexComplete | web/src/main/webapp/public/login.js:446-447 | every list of tokens that can be told apart is found again |
| JsonGrammar.ReaderExact | web/src/main/webapp/public/login.js:446-447 | the reader takes a text for a value exactly when it can be cut into tokens of the grammar that denote it |
| JsonLaws.ReadBack | web/src/main/webapp/public/login.js:250-392 | reading by the grammar of RFC 4627 recovers the JSON form of any value, for white-space indents exactly when they are JSON white space or do not show |
| JsonLaws.PrintedAlike | web/src/main/webapp/public/login.js:250-392 | with any white-space indent, two values print alike exactly when they have the same JSON form |
| JsonLaws.PrintEmbedded | web/src/main/webapp/public/login.js:336-380 | printing depends on the JSON form alone: other members vanish, other elements print as null |
| JsonLaws.IndentOnlyAddsBlanks | web/src/main/webapp/public/login.js:329-390 | deleting white space outside strings turns the indented text into the compact one |
| JsonIndent.PrintedPretty | web/src/main/webapp/public/login.js:329-390 | with any indent the printed text is the compact one in lines, each indented by the brackets that are open |
| JsonGuard.GuardOnTokens | web/src/main/webapp/public/login.js:477-501 | a text of well-shaped tokens passes exactly when no cx character stands between them |
| GuardScope.GuardExact | web/src/main/webapp/public/login.js:477-501 | a text is accepted exactly when, after the cx rewriting, it can be cut into loose strings, words, numbers, marks and white space, numbers side by side only before a minus, square brackets opened only where they may be |
| GuardScope.GuardSound | web/src/main/webapp/public/login.js:485-497 | so nothing else is ever evaluated |
| JsonLaws.GuardAcceptsJson | web/src/main/webapp/public/login.js:477-501 | the guard accepts every text that the grammar reads |
| NumberLaws.GuardAcceptsNumbers | web/src/main/webapp/public/login.js:500 | every number made of those parts is accepted, alone and in an array |
| NumberLaws.GuardAcceptsDifferences | web/src/main/webapp/public/login.js:500 | two numbers side by side pass when the second has a minus, as in [1-2] |
| NumberLaws.ReaderReadsNumbers | web/src/main/webapp/public/login.js:446-447 | the reader reads exactly those without a leading zero and with digits behind the point |
| JsonLaws.GuardOnPrinted | web/src/main/webapp/public/login.js:477-501 | the guard accepts printed text, for white-space indents exactly when they have no cx character or do not show |
| JsonLaws.AmpersandIndentExact | web/src/main/webapp/public/login.js:68-73 | with an indent that starts with an ampersand, as the documentation offers, the guard accepts exactly what does not show it |
| CombinatorWalk.FirstIsNearest | web/src/main/webapp/public/jquery-1.3.1.js:2153-2169 | the naive walk finds the nearest node with a verdict, and nothing when there is none |
| CombinatorWalk.WalkToName | web/src/main/webapp/public/jquery-1.3.1.js:2150-2169 | the walk that stops at marks of earlier slots finds what the naive walk finds, and leaves only true marks |
| CombinatorWalk.DirNodeCheck | web/src/main/webapp/public/jquery-1.3.1.js:2146-2174 | every slot gets the nearest node with the name strictly beyond its own along the links, or false; every element visited is marked, nothing else, and nothing in XML |
| CombinatorWalk.WalkToPart | web/src/main/webapp/public/jquery-1.3.1.js:2180-2206 | the same for a selector or a node to meet |
| CombinatorWalk.DirCheck | web/src/main/webapp/public/jquery-1.3.1.js:2176-2211 | with a selector every slot gets the nearest matching element strictly beyond its own along the links, or false; with a node it becomes true exactly when that element is met; marked are the elements visited |
| NthChild.NumberChildren | web/src/main/webapp/public/jquery-1.3.1.js:1899-1905 | every element child carries its rank among the element siblings, and the count is their number |
| NthChild.ElementsCount | web/src/main/webapp/public/jquery-1.3.1.js:1899-1905 | the rank counts the places of elements |
| NthChild.EnsureNumbered | web/src/main/webapp/public/jquery-1.3.1.js:1898-1908 | a parent that carries the mark of this pass has true numbers, whatever was cached |
| NthChild.NthTestDecides | web/src/main/webapp/public/jquery-1.3.1.js:1917-1931 | the remainder and quotient test holds exactly when some n >= 0 gives the index, for every index and a and b of either sign |
| NthChild.Filter | web/src/main/webapp/public/jquery-1.3.1.js:1892-1933 | first, last, only and nth say what the rank among the element siblings and their number say; without a parent last and only raise a TypeError, first and nth go by the number that the node carries |
| NthChild.FilterAll | web/src/main/webapp/public/jquery-1.3.1.js:1574-1580 | in a pass under a new name every answer is right, whatever numbers earlier passes have left |
| NthFormula.FormulaReads | web/src/main/webapp/public/jquery-1.3.1.js:1755-1764 | every an+b of the standard, written without white space and with a small n, is read as its two numbers |
| NthFormula.FormulaInText | web/src/main/webapp/public/jquery-1.3.1.js:1755-1764 | the first formula in any text is read, whatever stands around it; a sign without digits makes the second number NaN |
| NthFormula.KeywordsRead | web/src/main/webapp/public/jquery-1.3.1.js:1756-1763 | even, odd and plain integers are read as 2n, 2n+1 and 0n+i |
| NthFormula.RaisesExactly | web/src/main/webapp/public/jquery-1.3.1.js:1757-1762 | exactly which arguments raise a TypeError |
| EffectQueue.FunctionQueue.Add | web/src/main/webapp/public/jquery-1.3.1.js:1323-1336 | the function joins the queue, and is called when it is alone in the effects queue |
| EffectQueue.FunctionQueue.Remove | web/src/main/webapp/public/jquery-1.3.1.js:1339-1348 | the head leaves; the new head is called in the effects queue, the old one in any other |
| EffectQueue.FirstInFirstOut | web/src/main/webapp/public/jquery-1.3.1.js:1323-1348 | when every function dequeues once, those called are a first part of those queued, in order, never two at a time, all of them once the queue is empty, and the head is the one running |
| EffectQueue.NothingIsDropped | web/src/main/webapp/public/jquery-1.3.1.js:1323-1336 | what has been called and what waits behind the head make up what was queued |
| EffectQueue.ExtraDequeue | web/src/main/webapp/public/jquery-1.3.1.js:1385-1390 | a second dequeue makes two functions run exactly when another one waits |
| EffectQueue.PlainQueueInOrder | web/src/main/webapp/public/jquery-1.3.1.js:1339-1348 | in other queues what has been called and what waits make up what was queued, in order, whoever dequeues |
| AjaxCounter.CounterIsExact | web/src/main/webapp/public/jquery-1.3.1.js:3345-3542 | over every interleaving active is the number of outstanding requests, each is released at most once, and ajaxStart and ajaxStop fire at every change between 0 and 1 and no other time |
| AjaxCounter.StepKeepsExact | web/src/main/webapp/public/jquery-1.3.1.js:3418-3507 | every single event keeps that |
| RequestLife.WaitingEndsExactly | web/src/main/webapp/public/jquery-1.3.1.js:3431-3450 | in every run a waiting request completes exactly at a poll with readyState 4 or at its timeout, and is given up exactly at a poll or timeout after an abort |
| RequestLife.OtherPhasesExactly | web/src/main/webapp/public/jquery-1.3.1.js:3417-3542 | exactly which event brings a request into each other phase |
| RequestLife.ReadyStateExactly | web/src/main/webapp/public/jquery-1.3.1.js:3417-3423 | the readyState is what the browser last set, or 0 after an abort or a veto |
| RequestLife.EarlyPoll | web/src/main/webapp/public/jquery-1.3.1.js:3443 | a poll at readyState 1 to 3 changes nothing |
| RequestLife.ResponseEnds | web/src/main/webapp/public/jquery-1.3.1.js:3443-3490 | once the response has come, the next poll and the callbacks end the request, and the counter goes down once |
| RequestLife.AbortEnds | web/src/main/webapp/public/jquery-1.3.1.js:3433-3440 | after an abort the next poll does |
| RequestLife.CanDrain | web/src/main/webapp/public/jquery-1.3.1.js:3431-3542 | from every reachable state the open requests can be ended, and the counter is then 0 |
| RequestLife.SignalsTell | web/src/main/webapp/public/jquery-1.3.1.js:3347-3348 | the signals are exactly the changes of active between 0 and 1, read off the states of the run |
| AjaxCounter.Ajax.StartRequest | web/src/main/webapp/public/jquery-1.3.1.js:3345-3388 | counts the request and fires ajaxStart for the first |
| AjaxCounter.Ajax.AfterBeforeSend | web/src/main/webapp/public/jquery-1.3.1.js:3417-3498 | a veto counts down and closes, otherwise the poll is set |
| AjaxCounter.Ajax.HandleReadyState | web/src/main/webapp/public/jquery-1.3.1.js:3431-3450 | an aborted request counts down once, a completed or timed out one starts its callbacks once |
| AjaxCounter.Ajax.TimerFires | web/src/main/webapp/public/jquery-1.3.1.js:3501-3506 | a timeout completes only a request that still waits |
| AjaxCounter.Ajax.CompleteRequest | web/src/main/webapp/public/jquery-1.3.1.js:3485-3542 | the end of the callbacks counts down and drops the request object |
| IdAllocation.IdsCountUp | queue/src/main/java/bigbird/queue/AbstractCommandQueue.java:87-99 | whatever the fetches do, ids count up without a gap, so none comes twice in a run |
| IdAllocation.BoundExact | queue/src/main/java/bigbird/queue/AbstractCommandQueue.java:87-99 | with fetches that take at most d further calls, every id of every run is below the maximum exactly when d is smaller than threshold, increment and 100 |
| IdAllocation.PromptLeast | voldemort/src/main/java/bigbird/voldemort/VoldemortCommandQueue.java:105-118 | for every increment and threshold, with prompt fetches: the least step that keeps the threshold free, or one fetch for every call as long as that does not suffice |
| IdAllocation.PromptMaximum | voldemort/src/test/java/bigbird/voldemort/CommandQueueTest.java:36-45 | with the defaults it is 100 + 100 * ((n + 9) / 100) after n calls, 300 after 200 |
| CommandQueue.Queue.NextCommandId | queue/src/main/java/bigbird/queue/AbstractCommandQueue.java:87-99 | returns the next id and asks for at most one fetch |
| CommandQueue.Queue.StoreRemotely | voldemort/src/main/java/bigbird/voldemort/VoldemortCommandQueue.java:64-88 | a stored command is under the id returned; a refused one uses up an id |
| CommandQueue.Queue.AddAsync | queue/src/main/java/bigbird/queue/AbstractCommandQueue.java:63-85 | stores first, then queues under the same id; on refusal neither |
| CommandQueue.Queue.Add | queue/src/main/java/bigbird/queue/AbstractCommandQueue.java:52-60 | stores, then executes, and leaves the command in the store; on refusal neither |
| CommandQueue.Queue.RunNext | queue/src/main/java/bigbird/queue/AbstractCommandQueue.java:73-84 | the first runnable is executed and finished; when the command throws it is not counted as executed, and when the delete throws the minimum stays |
| CommandQueue.Queue.FinishCommand | queue/src/main/java/bigbird/queue/AbstractCommandQueue.java:118-124 | deletes the command, if the store manages that, and moves the minimum past it in any case |
| CommandQueue.Queue.FetchBatch | voldemort/src/main/java/bigbird/voldemort/VoldemortCommandQueue.java:105-118 | stores the new range and raises the maximum, all or, when the store gives up or throws, the part that was done; after an exception no further fetch is asked for |
| CommandQueue.Queue.Shutdown | voldemort/src/main/java/bigbird/voldemort/VoldemortCommandQueue.java:56-62 | stores the present range |
| CommandQueue.Queue.Initialize | voldemort/src/main/java/bigbird/voldemort/VoldemortCommandQueue.java:22-54 | queues the stored commands of the stored range, nothing without a stored maximum |
| CommandQueue.Restart | voldemort/src/main/java/bigbird/voldemort/VoldemortCommandQueue.java:17-54 | after a crash the new queue holds exactly the replay, with rising ids |
| CommandQueue.ReplayExact | voldemort/src/main/java/bigbird/voldemort/VoldemortCommandQueue.java:35-50 | a stored command is replayed exactly when its id lies in the stored range |
| CommandQueue.ReplayInOrder | voldemort/src/main/java/bigbird/voldemort/VoldemortCommandQueue.java:35-50 | the replay is in id order, with no command twice |
| QueueRuns.AtLeastOnce | queue/src/main/java/bigbird/queue/AbstractCommandQueue.java:13-32 | in every reachable state an accepted command is stored under its own id or has been executed |
| QueueRuns.RunSound | queue/src/main/java/bigbird/queue/AbstractCommandQueue.java:63-124 | no run changes which command was accepted under an id, or forgets an execution |
| QueueRuns.IdHistory | voldemort/src/main/java/bigbird/voldemort/VoldemortCommandQueue.java:105-118 | in every run the maximum is 100 and the increment for every completed fetch; one that is given up or throws leaves it alone |
| QueueRuns.AsksExactly | queue/src/main/java/bigbird/queue/AbstractCommandQueue.java:87-99 | a call asks for a fetch exactly when none is under way and the threshold is reached, also after one that was given up |
| QueueRuns.ReplayedExactly | voldemort/src/main/java/bigbird/voldemort/VoldemortCommandQueue.java:22-54 | in every reachable state a restart replays an accepted, not executed command exactly when the stored range covers it |
| QueueRuns.LossExact | queue/src/main/java/bigbird/queue/AbstractCommandQueue.java:118-124 | in every run, workers crossing in finishCommand included, an accepted, not executed command below the stored maximum is lost exactly when, as the minimum was last stored, its last writer had this or a later id |
| QueueRuns.RecoveryExact | voldemort/src/main/java/bigbird/voldemort/VoldemortCommandQueue.java:22-54 | after in-order runs an unfinished asynchronous command is replayed exactly when its id is below the stored maximum |
| QueueRuns.TimelyRunsRecover | voldemort/src/main/java/bigbird/voldemort/VoldemortCommandQueue.java:105-118 | with timely fetches and no shutdown in the middle of one, none is lost once a maximum has been stored |
| QueueCalls.NewQueueIsStart | voldemort/src/main/java/bigbird/voldemort/VoldemortCommandQueue.java:17-20 | a new queue on an empty store is the start of a run |
| QueueCalls.AddAsyncIsTurn | queue/src/main/java/bigbird/queue/AbstractCommandQueue.java:63-71 | a call of addAsync is one turn of a run |
| QueueCalls.AddIsTurn | queue/src/main/java/bigbird/queue/AbstractCommandQueue.java:52-60 | a call of add is one turn of a run |
| QueueCalls.RunNextIsSteps | queue/src/main/java/bigbird/queue/AbstractCommandQueue.java:73-84 | a runnable is the steps of one worker, however it ends |
| QueueCalls.FetchBatchIsSteps | voldemort/src/main/java/bigbird/voldemort/VoldemortCommandQueue.java:105-118 | a fetch is the steps of the index executor, however it ends |
| QueueCalls.ShutdownIsStep | voldemort/src/main/java/bigbird/voldemort/VoldemortCommandQueue.java:56-62 | a shutdown is the step of a run |
| QueueLosses.TwoWorkersLose | queue/src/main/java/bigbird/queue/AbstractCommandQueue.java:118-124 | with two workers a command can be lost |
| QueueLosses.ThrowLoses | queue/src/main/java/bigbird/queue/AbstractCommandQueue.java:73-85 | with one worker a command that throws can be lost |
| QueueLosses.CrossingRewinds | queue/src/main/java/bigbird/queue/AbstractCommandQueue.java:121-123 | with two workers both commands can be finished and the minimum end behind the later one |
| QueueLosses.OvertakingLoses | queue/src/main/java/bigbird/queue/AbstractCommandQueue.java:63-71 | with one worker two overlapping clients can lose a command |
| QueueLosses.ShutdownLoses | voldemort/src/main/java/bigbird/voldemort/VoldemortCommandQueue.java:56-62 | with one client, one worker and prompt fetches, a shutdown in the middle of a fetch can lose a command |
| QueueLosses.StuckForGood | queue/src/main/java/bigbird/queue/AbstractCommandQueue.java:88-96 | after a fetch that throws no run raises the maximum again |
| Entries.EntryReadsBack | voldemort/src/main/java/bigbird/voldemort/StartFollowingCommand.java:69-71 | a written entry is read back exactly when the tweet id has no colon |
| Entries.EncodedReads | voldemort/src/main/java/bigbird/voldemort/StartFollowingCommand.java:69-71 | what is read back for every tweet id |
| JavaStrings.ParseLongExact | voldemort/src/main/java/bigbird/voldemort/TweetCommand.java:94 | a date is read from digits with at most one minus in front, and from nothing else |
| Entries.NameMissingExactly | voldemort/src/main/java/bigbird/voldemort/StopFollowingCommand.java:48-49 | a stored string has no part before the first colon exactly when it is nothing but colons |
| Entries.ReadableExact | voldemort/src/main/java/bigbird/voldemort/TweetCommand.java:93-94 | for exactly which authors reading the date of an entry does not throw |
| Entries.EncodeInjective | voldemort/src/main/java/bigbird/voldemort/StartFollowingCommand.java:62-66 | comparing written entries is comparing entries, for all ids |
| Entries.PrefixMeansAuthor | voldemort/src/main/java/bigbird/voldemort/StopFollowingCommand.java:48-53 | the prefix test, for every author: it holds for the user, unless the name has a colon, and for authors whose names, up to the first colon, start with the user's name and a dash |
| Entries.PrefixIsAuthor | voldemort/src/main/java/bigbird/voldemort/StopFollowingCommand.java:48-53 | for names without a dash it is the author test, except that it fails for every name with a colon |
| Entries.NeverMarked | voldemort/src/main/java/bigbird/voldemort/StopFollowingCommand.java:48-53 | the test never holds for a user whose name has a colon |
| Timeline.UserTimeline.InsertTweet | voldemort/src/main/java/bigbird/voldemort/TweetCommand.java:84-103 | a tweet newer than entry 0 goes to the front, any other to the end; an exception exactly when entry 0 cannot be read |
| Timeline.UserTimeline.MergeTweet | voldemort/src/main/java/bigbird/voldemort/StartFollowingCommand.java:68-84 | one missing tweet goes before the first newer entry from the position on, or to the end, within the cap; an exception when an entry on the way cannot be read |
| Timeline.UserTimeline.MergeRecent | voldemort/src/main/java/bigbird/voldemort/StartFollowingCommand.java:53-89 | the merge loop computes the specification, exceptions included |
| Timeline.UserTimeline.RemoveTweetsOf | voldemort/src/main/java/bigbird/voldemort/StopFollowingCommand.java:45-54 | exactly the entries whose part before the first colon has the prefix are removed, in place; an exception when there is no such part |
| Timeline.TimelineStore.Insert | voldemort/src/main/java/bigbird/voldemort/TweetCommand.java:73-82 | a missing timeline is an empty one; one timeline changes, and none when the insertion throws |
| Timeline.TimelineStore.Start | voldemort/src/main/java/bigbird/voldemort/StartFollowingCommand.java:42-96 | the same for the merge |
| Timeline.TimelineStore.Stop | voldemort/src/main/java/bigbird/voldemort/StopFollowingCommand.java:37-59 | the same for the removal; a missing timeline stays missing |
| EntryTimeline.InsertTextIs | voldemort/src/main/java/bigbird/voldemort/TweetCommand.java:84-103 | for ids without a colon the strings are treated as the entries they stand for, and nothing throws |
| EntryTimeline.MergeTextIs | voldemort/src/main/java/bigbird/voldemort/StartFollowingCommand.java:53-89 | the same for the merge |
| EntryTimeline.InsertKeepsOrder | voldemort/src/main/java/bigbird/voldemort/TweetCommand.java:91-102 | one insertion into entries that can be read keeps the order exactly when the tweet belongs at an end |
| EntryTimeline.ArrivalOrderExact | voldemort/src/main/java/bigbird/voldemort/TweetCommand.java:84-103 | a timeline of entries that can be read is newest-first exactly when every tweet arrived newer than all or than none |
| EntryTimeline.StoredOrderExact | voldemort/src/main/java/bigbird/voldemort/TweetCommand.java:84-103 | the same for the stored strings and the dates read from them, for ids without a colon |
| EntryTimeline.ArriveIncreasing | voldemort/src/main/java/bigbird/voldemort/TweetCommand.java:84-103 | with increasing dates such a timeline is the arrivals backwards |
| EntryTimeline.FirstBlocks | voldemort/src/main/java/bigbird/voldemort/TweetCommand.java:91-94 | a first tweet whose date cannot be read is the only one that gets into the timeline |
| MergeLaws.MergeAdds | voldemort/src/main/java/bigbird/voldemort/StartFollowingCommand.java:53-89 | at any size, whatever is stored, a merge that does not throw adds some first part of the missing tweets, once each, and nothing else |
| MergeLaws.StartedUnchanged | voldemort/src/main/java/bigbird/voldemort/StartFollowingCommand.java:53-92 | start-following leaves a timeline as it was exactly when it throws, nothing is missing, or the cap blocks the first missing tweet |
| MergeLaws.FirstFollowThrows | voldemort/src/main/java/bigbird/voldemort/StartFollowingCommand.java:68-71 | into an empty timeline, when the newest tweet cannot be read back, it throws exactly when there is another tweet |
| MergeLaws.MergeIdempotent | voldemort/src/main/java/bigbird/voldemort/StartFollowingCommand.java:53-89 | within the cap a merge that does not throw inserts every missing recent tweet exactly once, changes nothing else, and merging again changes nothing |
| MergeLaws.MergeAgainExact | voldemort/src/main/java/bigbird/voldemort/StartFollowingCommand.java:62-66 | at any size a second execution changes nothing exactly when it throws, nothing was left out, or the cap blocks the first tweet that was |
| MergeOrder.RoomExact | voldemort/src/main/java/bigbird/voldemort/StartFollowingCommand.java:68-88 | all timelines of n entries take in all of m >= 1 missing tweets, if nothing throws, exactly when n + m <= 251 |
| MergeLaws.MergeKeeps | voldemort/src/main/java/bigbird/voldemort/StartFollowingCommand.java:53-89 | entries that are not newcomers keep their order, at any size |
| MergeLaws.OldTimelineKept | voldemort/src/main/java/bigbird/voldemort/StartFollowingCommand.java:53-89 | the old timeline, order included, is what the merged one holds of the old entries |
| MergeOrder.MergeOrderExact | voldemort/src/main/java/bigbird/voldemort/StartFollowingCommand.java:59-89 | for every timeline and all recent tweets with ids without a colon, exactly when the merged timeline is newest-first, and what it is then |
| MergeOrder.FirstFollow | voldemort/src/main/java/bigbird/voldemort/StartFollowingCommand.java:59-89 | into an empty timeline recent tweets with such ids go with the newest one last, in order only when there is just one |
| MergeLaws.UndoExact | voldemort/src/main/java/bigbird/voldemort/StopFollowingCommand.java:45-54 | for every stored timeline and every user: stop after start restores the timeline exactly when it held no entry with the prefix; for a user with a colon in the name, or with an entry that cannot be split, exactly when start changed nothing |
| MergeLaws.UndoByAuthors | voldemort/src/main/java/bigbird/voldemort/StopFollowingCommand.java:45-54 | the same in terms of the authors' names |
| MergeLaws.ColonRemovesNothing | voldemort/src/main/java/bigbird/voldemort/StopFollowingCommand.java:45-54 | for a user with a colon in the name stop-following changes no timeline |
| MergeLaws.ColonStays | voldemort/src/main/java/bigbird/voldemort/StopFollowingCommand.java:45-54 | the tweet of "x:y" that start-following brings into an empty timeline stays |
| FanOut.Stores.Execute | voldemort/src/main/java/bigbird/voldemort/TweetCommand.java:33-71 | in any order of the followers every timeline gets the tweet as often as it is owed, unless entry 0 cannot be read; none does when the put of the tweet is refused, as it is when its id is taken |
| FanOut.Conservation | voldemort/src/main/java/bigbird/voldemort/TweetCommand.java:33-82 | in every run, for all names, copies in a timeline, on their way and lost, to refused puts, exceptions and crashes, add up to what the stored tweets owe |
| FanOut.FannedOutOnce | voldemort/src/main/java/bigbird/voldemort/TweetCommand.java:38 | so a tweet is fanned out once, however often its command is executed |
| FanOut.ReplayRefused | voldemort/src/main/java/bigbird/voldemort/TweetCommand.java:38 | an execution that finds its tweet stored does nothing |
| FanOut.CrashIsFinal | voldemort/src/main/java/bigbird/voldemort/TweetCommand.java:38-69 | after a crash between the put of the tweet and its deliveries no replay gets it into a timeline |
| FanOut.CrashAndReplay | voldemort/src/main/java/bigbird/voldemort/TweetCommand.java:38-69 | such a run |
| FanOutQuery.OrderInRuns | voldemort/src/main/java/bigbird/voldemort/TweetCommand.java:84-103 | in every run the timeline of a user who sees no names with a colon is newest-first exactly when its tweets arrived in such an order |
| FanOutQuery.FanOutIsQuery | voldemort/src/main/java/bigbird/voldemort/TweetCommand.java:33-103 | without self-follow, overlap, date inversions and names with a colon each timeline is the strictly newest-first list of all tweets by the user and those followed |
| FanOutQuery.FanOutExact | voldemort/src/main/java/bigbird/voldemort/TweetCommand.java:33-103 | whatever overlaps, with tweets in the order of their dates, no self-follow and no colon in the names seen, a timeline is that list exactly when no put was refused and every tweet arrived newer than all or than none |
| FanOutQuery.BlockedForGood | voldemort/src/main/java/bigbird/voldemort/TweetCommand.java:91-94 | once entry 0 of a timeline cannot be read, no run of tweet commands changes it |
| FanOutQuery.FirstBlocksTimeline | voldemort/src/main/java/bigbird/voldemort/TweetCommand.java:91-94 | when the first delivery to arrive cannot be read, the timeline holds it and nothing else, in every run |
| FanOutQuery.SecondTweetMissing | voldemort/src/main/java/bigbird/voldemort/TweetCommand.java:91-94 | for every author whose entries cannot be read, a run in which the second tweet is missing from the timeline |
| FanOutQuery.ColonNameUnreadable | voldemort/src/main/java/bigbird/voldemort/TweetCommand.java:93-94 | "x:y" is such an author |
| FanOut.ExecutionExact | voldemort/src/main/java/bigbird/voldemort/TweetCommand.java:33-71 | in every run an execution leaves a timeline as it was exactly when the put of the tweet was refused or that user is owed nothing |
| FanOut.WithoutEffectExactly | queue/src/main/java/bigbird/queue/AbstractCommandQueue.java:18 | so it leaves all timelines as they were exactly when the put of the tweet was refused or the author is missing |
| TweetListing.WrapExact | voldemort/src/main/java/bigbird/voldemort/VoldemortTweetService.java:57-59 | sums and differences of ints are taken modulo 2^32, into the range of an int |
| TweetListing.ListTweets | voldemort/src/main/java/bigbird/voldemort/VoldemortTweetService.java:57-75 | the loop ends for all ints and lists the present tweets at the indices that it visits, up to the limit |
| TweetListing.TweetService.GetTweets | voldemort/src/main/java/bigbird/voldemort/VoldemortTweetService.java:51-76 | for all ints the loop ends and lists the present tweets from lastTweet - start downwards, cut at start + count |
| TweetListing.TweetService.NextIndex | voldemort/src/main/java/bigbird/voldemort/VoldemortTweetService.java:205-220 | counts up and hands out the new index |
| TweetListing.StoredInRange | voldemort/src/main/java/bigbird/voldemort/VoldemortTweetService.java:193-235 | in every run stored tweets have indices from 1 to the counter |
| TweetListing.IssuedExactly | voldemort/src/main/java/bigbird/voldemort/VoldemortTweetService.java:205-220 | in every run the indices given to a user are exactly those from 1 to the counter |
| TweetListing.ListingComplete | voldemort/src/main/java/bigbird/voldemort/VoldemortTweetService.java:51-76 | in every run a long enough listing holds exactly the stored tweets of the user |
| TweetListing.PageExact | voldemort/src/main/java/bigbird/voldemort/VoldemortTweetService.java:57-73 | a page that starts within the list holds the newest stored tweets from index lastTweet - start down, each once, in falling order, not more than start + count, and leaves one out only when it is full |
| TweetListing.PastTheEnd | voldemort/src/main/java/bigbird/voldemort/VoldemortTweetService.java:58-65 | a page that starts behind the last tweet lists the tweets of the user with one more dash from index start - lastTweet up, then the newest tweets of the user again |
| TweetListing.PastTheEndOwn | voldemort/src/main/java/bigbird/voldemort/VoldemortTweetService.java:58-65 | it holds only tweets of the user exactly when it is cut to nothing or there are no such foreign tweets |
| TweetListing.NegativeStart | voldemort/src/main/java/bigbird/voldemort/VoldemortTweetService.java:58-65 | a negative start is as good as 0, until the difference overflows and the page begins like one behind the last tweet |
| TweetListing.ForeignTweetListed | voldemort/src/main/java/bigbird/voldemort/VoldemortTweetService.java:58-65 | a run in which a user is shown the tweet of another |
| TweetListing.KeyInjective | voldemort/src/main/java/bigbird/voldemort/VoldemortTweetService.java:220 | different tweets have different ids |
| UserSets.ToString | voldemort/src/main/java/bigbird/voldemort/VoldemortTweetService.java:140-149 | the result encodes the set: its names in one order or another, each once, with commas between |
| UserSets.AsSet | voldemort/src/main/java/bigbird/voldemort/VoldemortTweetService.java:151-162 | the set of the pieces, empty for a missing field |
| UserSets.DecodedExactly | voldemort/src/main/java/bigbird/voldemort/VoldemortTweetService.java:140-162 | every comma-free name is read back, in every order; the empty name only alone or between others |
| UserSets.DecodedPieces | voldemort/src/main/java/bigbird/voldemort/VoldemortTweetService.java:140-162 | of any names, with or without commas, exactly the non-empty pieces between the commas are read back |
| UserSets.RoundTripExact | voldemort/src/main/java/bigbird/voldemort/VoldemortTweetService.java:140-162 | the non-empty names come back exactly when none has a comma |
| FollowGraph.UserStore.UpdateFollowing | voldemort/src/main/java/bigbird/voldemort/StartFollowingCommand.java:100-115 | one field of one existing record is written, with the new set |
| FollowGraph.UserStore.UpdateFollowers | voldemort/src/main/java/bigbird/voldemort/StartFollowingCommand.java:121-136 | the same for the other field |
| FollowGraph.UserStore.StartFollowing | voldemort/src/main/java/bigbird/voldemort/StartFollowingCommand.java:36-40 | both records change; a missing user is skipped |
| FollowGraph.UserStore.StopFollowing | voldemort/src/main/java/bigbird/voldemort/StopFollowingCommand.java:33-35 | the other way round; a missing user ends the command |
| FollowGraph.SymmetryExact | voldemort/src/main/java/bigbird/voldemort/StartFollowingCommand.java:100-136 | for all names: stop always keeps the graph symmetric, start exactly when its two records say the same, piece by piece |
| FollowGraph.SymmetryForNames | voldemort/src/main/java/bigbird/voldemort/StartFollowingCommand.java:100-136 | between names without a comma start keeps it exactly when both users exist or neither does |
| FollowGraph.CommaBreaksSymmetry | voldemort/src/main/java/bigbird/voldemort/StartFollowingCommand.java:110-132 | "a,b" starts to follow "v", and the followers of "v" name "a", who follows nobody |
| FollowGraph.GraphIsHistory | voldemort/src/main/java/bigbird/voldemort/StopFollowingCommand.java:63-85 | after any run between existing users, for all names, each decoded record says what the last command that touches it said |
| FollowGraph.SymmetricInRuns | voldemort/src/main/java/bigbird/voldemort/StopFollowingCommand.java:63-85 | so the graph is symmetric after any run of commands between existing users with comma-free names |
| FollowGraph.FanOutByFollowing | voldemort/src/main/java/bigbird/voldemort/TweetCommand.java:47-63 | after such a run fan-out reaches exactly those who by their own records follow the author |

## Left out

- `eval` and the reviver: the model ends where the guard accepts.
- JsonPrinter.Stringifier.Str: values are printed without `toJSON` methods and replacers, which run code of the caller.
- JsonPrinter.Stringifier.StringifyValue: the replacer argument and the error for a bad one, for the same reason.
- Numbers are texts: the printer is given what `String(number)` writes, taken to be a number of RFC 4627; a numeric `space` is an integer.
- The reader takes any value at the top of a text, where RFC 4627 has only objects and arrays.
- Changes of the DOM during a selector pass: the links between nodes do not change.
- The tokeniser of selectors and all filters but CHILD; the selector that `dirCheck` filters with is any fixed predicate.
- NthFormula.FormulaReads: the white space around the second sign and the capital N that Selectors Level 3 also allows.
- EffectQueue.FunctionQueue.Add: an array given to `jQuery.queue`, which replaces the queue; and callbacks that throw.
- AjaxCounter.CounterIsExact: synchronous, JSONP and script-tag requests, callers that open an aborted request object again, and a `beforeSend` that sets `s.global`: set to false after the request was counted (jquery-1.3.1.js:3417), it keeps the counter from ever returning to 0.
- AjaxCounter.Ajax.StartRequest: script-tag requests, which never get a request object.
- AjaxCounter.Ajax.AfterBeforeSend: synchronous requests, which complete before the call returns.
- QueueCalls.RunNextIsSteps: calls that overlap have no counterpart among the methods, which run one at a time; QueueRuns has them.
- QueueRuns.TimelyRunsRecover: does not cover runs with a batch fetch that is given up or throws, which is not a timely one; RecoveryExact covers all.
- CommandQueue.Queue.Initialize: stored commands that cannot be read back, which the source logs and skips; a command is opaque here.
- Timeline.TimelineStore.Start: the recent tweets are a parameter, which `getRecentTweets` would deliver; when the followed user is missing it throws, and the timeline stays as it was.
- Timeline.TimelineStore.Stop: when one of the two users is missing the command ends before it reads the timeline (FollowGraph.UserStore.StopFollowing has that exception).
- FanOutQuery.FanOutExact: timelines of users who see an author with a colon in the name; BlockedForGood, FirstBlocksTimeline and SecondTweetMissing say how they fail.
- The conversion of stored fields to tweets, and a tweet counter that passes 2^31.
- The stores themselves: each is a map with atomic gets, puts and deletes; a put succeeds or is refused, and one of a new version under a key in use is refused (FanOut). A refused put of start- or stop-following leaves the timeline as it was. A retry by `applyUpdate` is one more event of the same kind.
- Serialization of commands, logging, timing, and the timeouts of latches: a command is opaque, and executors run tasks in any order.
- Ids handed out after a restart: `initialize` does not restore `nextId`, and the model follows one run, a crash and the replay.
- Longs are unbounded: dates and ids do not overflow.
- `getFriendsTimeline`: its loop and its latch disagree for a positive start.
- The `web` servlets, `bigbird.js`, `benchmark`, `couchdb` and `ops`: plumbing and configuration.
