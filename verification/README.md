# A verified model of the ObTools libraries

ObTools is a C++ toolkit.  This project models the parts of it whose correctness lies in states, loops and
protocols, and proves what they are meant to do for every input, every run or every reachable state.  Classes
that change their fields in place are Dafny classes with loops and `modifies` clauses; each method is proved
against a function on values, and the theorems are about those functions.  The files whose names end in `Meaning`, with
`ExpressionText`, `TagRoles`, `BytePlaces` and `DnsAnswer`, say what these functions come to without naming them: on times,
bytes, bits, tags and texts.

- **Connection pool** (`PoolModel`, `PoolSafety`, `PoolMeaning`, `ConnectionPool`).  Every section under the pool's mutex is one
  step: a claim's first section, its queueing, its wake-up, a release, and a reaper pass.  Steps interleave freely,
  so a claim may queue long after it was told that the pool is full.
- **Action manager** (`ActionModel`, `ActionSafety`, `ActionMeaning`, `ActionManager`).  The dispatcher, the workers and the clients
  take steps as small as one write to a worker's unlocked field.
- **Template compiler** (`TokenRecogniser`, `Template`, `TemplateText`, `Processor`, `TagRoles`).  A reference parser and compiler
  define what a template means, and the parser undoes writing a template from its items; the streaming translator
  with its four token recognisers is proved to write that program.
- **Gather buffers** (`Flat`, `GatherBuffer`, `GatherReader`, `GatherMeaning`).  The segmented buffer, its iterator and its reader
  against one flat sequence of bytes.
- **Expressions** (`Tokeniser`, `Spelling`, `Grammar`, `ExpressionText`, `Evaluator`).  A declarative spelling and a grammar of trees
  against the tokeniser and the recursive evaluator, over any arithmetic.
- **AES modes and padding** (`Cipher`, `Aes`, `AesMeaning`, `AesBuffer`).  Chaining, the residual termination block and PKCS #7 over
  an abstract invertible block cipher, in arrays and in gather buffers.
- **Channels** (`Positional`, `Record`, `Format`, `ChannelReader`, `ChannelWriter`, `ChannelRoundTrip`) and
  **bit streams** (`BitFields`, `BytePlaces`, `BitChannel`), with readers that deliver in pieces and limits nested to any depth.
- **Pointer cache** (`CacheModel`, `CacheSafety`, `CacheMeaning`, `PointerCache`), one operation at a time, and with the sections of
  several adds interleaved (`CacheSteps`).
- **Alarm clock** (`Alarm`), with the invalid stamp that the timer takes for no time at all.
- **DNS responses** (`DnsMessage`, `DnsResolver`, `DnsAnswer`) and **paths** (`Path`), with the places that paths lead to
  (`PathPlace`).

Time, the answers of the connection factory, which connections have died, the decisions of `prepare_to_die`, how
much a source delivers at once and the DNS response come from outside and are parameters.

## What the code does not do

Where the code is narrower than its purpose, the model follows the code, a lemma gives an input, and another says
exactly when it works.

| where | holds exactly when | member |
|---|---|---|
| a claim never waits beside an idle connection | no claim queues after one came back, and the reaper does not refill while others go on waiting | PoolSafety.RunStrandsIff, with two runs |
| a stray release is harmless | the connection is idle already and nobody waits | PoolSafety.StrayReleaseIsHarmlessIff |
| the token recogniser finds every occurrence of a tag | the tag is shift-safe; having no border is not enough | TokenRecognisers.FindsAllIffShiftSafe, BorderFreeIsNotEnough |
| text is kept to its last character | it does not end in the beginning of a tag | Templates.TextKeptIff |
| code after a tag recognised late is kept | its first character is white, or the one after it is not | Templates.CodeKeptIff |
| a deep copy of a segment shows the same bytes | nothing has been consumed of an owned block | GatherBuffers.DeepCopyIsRightIff |
| going back in a gather buffer goes back that far | the distance fits and is not zero at the end; with only empty segments it never returns | GatherReaders.Reader.RewindBy, BufferIterator.NoWayBack |
| setting a cache limit leaves as many entries as it allows | the cache is empty, has room for exactly one more, or never evicts and is within the limit | CacheSafety.SetLimitIsRightIff |
| an overlapping add keeps the cache's limit | no other add is past its look at the size; with k of them the limit is exceeded by less than k | CacheSteps.LimitByAdders, TwoAddersExceed |
| an add loses no pointer | nobody has filled its ID since it removed what was there | CacheSteps.LosesIff, SameIdLoses |
| an add that finds the cache full evicts no more than there is | when it counts, others have not made room for two | CacheSteps.CountWrapsIff |
| the alarm timer is armed while somebody waits, and tells him | no alarm is set for the invalid stamp (zero ticks) | AlarmClocks.WorksThroughoutIff, SecondWaitsForEver |
| removing an alarm removes that alarm only | it is not another observer who is alone at that time | AlarmClocks.RemovesOnlyNamedIff |
| a record reads back under a limit that ends with it | its last item takes at least one byte | Records.RecordBackIff |
| an Exp-Golomb code is read back | at most 30 zeros lead, that is, the value is below 2^31 - 1 | BitChannels.BitReader.ReadExpGolomb, BitFields.ShortCodes |
| padding is taken off again | at most 255 bytes were added | Ciphers.UnpadIff |
| resolving leads to the place that is meant | every component it drops is a name, not "." or "..", or an absolute path is at its root: "../y" against "../x" gives "y" | PathPlaces.PlaceKeptIff, StepUpIsDropped |
| directory and leaf give the path back | the directory is not written "." and does not end in a slash | Paths.PartsRebuildIff |

Where comments and code differ: the grammar in `libs/expr/ot-expr.h` writes `+` for what the code repeats zero or
more times, allows one unary sign where the code takes any number, and makes a comparison look compulsory; the code
joins `&&` and `||` at one level and always reads both sides.  `Path::dirname` says it returns an empty path where it
returns ".".

## Model

| member | source | states |
|---|---|---|
| PoolSafety.RunsAreSafe | libs/db/pool.cc:18-284 | In every state of every interleaving, given min <= max: idle connections are distinct members of the pool, no connection has two owners or is idle and owned, `last_used` covers exactly the pool, the maximum holds, everything created is in the pool or deleted once, and the pending requests are the waiting claims in queue order |
| PoolSafety.AnsweredOnceInOrder | libs/db/pool.cc:135-185 | Over a whole run the list of queued claims and that of answered ones only grow, neither ever repeats a claim, and the answered ones are a prefix of the queued ones |
| PoolSafety.ReaperSparesOwned | libs/db/pool.cc:189-271 | A reaper pass keeps every held or handed-over connection in the pool with the same owner; whatever leaves the pool was idle |
| PoolSafety.ReapInactiveKeeps | libs/db/pool.cc:221-253 | Reaping the inactive stops at the minimum, removes only idle connections and deletes exactly what it removes |
| PoolMeaning.ReapsInactive | libs/db/pool.cc:221-253 | For every pool and every order of its map: whoever is reaped was idle and had been inactive for `max_inactivity` or longer; whoever was used more recently stays, with its time; whoever is in use and inactive gets the time now; afterwards the pool is at its minimum or below, or nobody idle has been inactive that long |
| PoolMeaning.PassFate | libs/db/pool.cc:189-271 | The same over a whole pass with its refill: whoever leaves was idle, and dead or inactive for that long; whoever was used more recently, and is not idle and dead, stays with its time; whoever is in use and inactive gets the time now |
| PoolMeaning.PassLeaves | libs/db/pool.cc:189-271 | After a pass with more than the minimum left, everybody idle was idle before, is alive and has been used recently enough |
| PoolMeaning.FillsUp | libs/db/pool.cc:39-74 | As many good connections as are asked for are created |
| PoolMeaning.ClaimTakes | libs/db/pool.cc:79-104 | A claim gets the first live connection in the order of the available list, which then counts as used now; those before it go, those after it stay |
| PoolMeaning.ClaimCreates | libs/db/pool.cc:105-130 | With none alive and room below the maximum it gets the new connection, used now |
| PoolMeaning.ClaimFails | libs/db/pool.cc:105-130 | If the factory gives nothing the claim gets nothing; if it gives a broken connection that is deleted at once |
| PoolMeaning.ClaimFindsFull | libs/db/pool.cc:131-136 | With none alive and no room it is told that the pool is full |
| PoolMeaning.LongestIdleFirst | libs/db/pool.cc:157-185 | After a release with nobody waiting the next claim gets the connection that has been idle longest |
| PoolSafety.ReleaseKeeps | libs/db/pool.cc:157-185 | A release by the holder hands the connection to the first waiting claim or makes it idle, so that it again has exactly one owner or none |
| PoolSafety.InUseIsOwned | libs/db/ot-db.h:1255-1256 | Total less available is the number of claims that own a connection |
| PoolSafety.StrayReleaseIsHarmlessIff | libs/db/pool.cc:157-185 | A release by somebody who does not own the connection keeps the pool consistent if and only if nobody waits and the connection is idle already |
| PoolSafety.RunStrandsIff | libs/db/pool.cc:79-271 | From any reachable state in which nobody waits beside an idle connection, a step makes somebody do so if and only if a claim queues although a connection is available, or the reaper's refill creates a good connection while requests outlast the timeout step; both guards are read off the state before |
| PoolSafety.ClaimCanWaitBesideIdle | libs/db/pool.cc:135-144 | A run in which a claim queues although the only connection has come back meanwhile |
| PoolSafety.ReaperCanStrand | libs/db/pool.cc:255-269 | A run in which the reaper's refill stays idle beside a waiting claim |
| ConnectionPools.ConnectionPool.Claim | libs/db/pool.cc:79-136 | The first section of a claim: dead connections at the front are deleted, then the first live one is taken and its time of use renewed, or a new one made below the maximum, or the claim is told that the pool is full |
| ConnectionPools.ConnectionPool.ClaimResult | libs/db/pool.cc:79-136 | A claim that gets a connection gets a live or a new one; one told "full" found the pool at its maximum with nothing available; one that gets nothing was refused by the factory |
| ConnectionPools.ConnectionPool.QueueRequest | libs/db/pool.cc:138-144 | The second section: the request goes to the end of the queue, whatever happened in between |
| ConnectionPools.ConnectionPool.Release | libs/db/pool.cc:157-185 | The first waiting claim is answered with the connection, or it becomes available, once |
| ConnectionPools.ConnectionPool.ReaperPass | libs/db/pool.cc:189-271 | One pass, step by step the pass of the specification: dead idle connections, inactive ones (which, PoolMeaning.PassFate says), the refill, and the timeout of the first request |
| ConnectionPools.ConnectionPool.FillUp | libs/db/pool.cc:39-74 | Creates until the minimum is reached, stopping at a connection that is broken |
| ConnectionPools.ConnectionPool.Close | libs/db/pool.cc:275-284 | After the destructor every connection ever created has been deleted exactly once |
| ActionSafety.RunsAreSafe | libs/action/ot-action.h:81-185 | In every state of every run of dispatcher, workers and clients the protocol's invariant holds: who is where, what each worker's fields hold, and what has been called |
| ActionSafety.LogFollowsDispatches | libs/action/ot-action.h:149-185 | At every moment, the calls made for a registration are for dispatches of its kind since it was registered, in order, none twice, and none missing except the last one looked up if that handler still waits for its turn |
| ActionSafety.EarlierActionsAreFinished | libs/action/ot-action.h:178-182 | While a worker handles an action, it is the last one looked up, every handler of every earlier one has been called, and nobody is still handling an earlier one |
| ActionSafety.NextActionWaitsForAll | libs/action/ot-action.h:149-185 | Whenever an action is fetched or looked up, every worker rests and every registration has been called for everything due to it |
| ActionSafety.FieldsChangeWhileResting | libs/action/ot-action.h:98-103 | A worker's unlocked action and handler change only by a dispatcher's step, while that worker is waiting |
| ActionSafety.CallsAreOfRegistered | libs/action/ot-action.h:159-174 | Every call is of the handler registered in that place for that kind of action |
| ActionMeaning.LookedUpAll | libs/action/ot-action.h:155-176 | Over every run, an action that is looked up goes to every handler that clients have added for its kind by then, in the order they were added |
| ActionMeaning.EveryHandlerCalled | libs/action/ot-action.h:149-185 | Whenever the dispatcher waits for an action, every handler of every action looked up so far has been called for it |
| ActionMeaning.EmptyItemStops | libs/action/ot-action.h:130-153 | Once an empty item has been taken the dispatcher shuts down and looks up nothing more; when it has stopped every worker has left |
| ActionSafety.NobodyIsStuck | libs/action/ot-action.h:84-111 | The dispatcher is blocked only when the queue is empty, when it has stopped, or when some worker can take a step |
| ActionManagers.Manager.DispatcherTurn | libs/action/ot-action.h:130-185 | Each step of the dispatcher, including growing the list of workers and shutting them down, is the step of the protocol |
| ActionManagers.Manager.Work | libs/action/ot-action.h:81-94 | Each step of a worker's loop is the step of the protocol |
| ActionManagers.Manager.Queue | libs/action/ot-action.h:225-232 | With a limit, the oldest items beyond one less than it go, then the new one is sent; tells whether any went |
| ActionManagers.QueuedWithinLimit | libs/action/ot-action.h:225-232 | With nothing in between, the queue keeps the limit, in order, losing only as many of its oldest as are over it |
| TokenRecognisers.TokenRecogniser.ProcessChar | libs/cppt/tokenr.cc:20-95 | The loops over all the tokens come to one function of the index, the longest valid token, the current token and the character |
| TokenRecognisers.RecogniseFamily | libs/cppt/tokenr.cc:20-95 | On tokens that share a stem the recogniser advances along the stem, completes a longer token, or gives back what it held: as the stem's token if that is one, else as refused input |
| TokenRecognisers.FindsAllIffShiftSafe | libs/cppt/tokenr.cc:32-95 | The recogniser of a tag finds it in exactly the inputs that contain it, if and only if the tag never agrees with itself at a shift and then wants another character |
| TokenRecognisers.BorderFreeIsNotEnough | libs/cppt/tokenr.cc:32-95 | "aab" has no border and is missed in "aaab" |
| Processors.Processor.Process | libs/cppt/processor.cc:139-305 | For every input, which a NUL ends, the streaming translator with its retry loop writes exactly the program text of the parsed template (what each tag makes of it: TagRoles) |
| Processors.UsualTagsOk | libs/cppt/processor.cc:139-305 | The tags "<?", "<?=", "<?#" and "?>" are among those for which it does |
| TagRoles.UsualExpression | libs/cppt/processor.cc:90-119 | With the usual tags and a stream name o, `<?=` body `?>` is written as `  o << (` body `) << "";` and a newline |
| TagRoles.UsualComment | libs/cppt/processor.cc:182-185 | `<?#` body `?>` is written as nothing |
| TagRoles.UsualCode | libs/cppt/processor.cc:171-176 | `<?` body `?>` is written as the body, unless it begins like another tag or with white space to strip |
| TagRoles.UsualUnclosed | libs/cppt/processor.cc:236-305 | An expression that is never closed is written as far as it goes and leaves its statement open; such a comment is not written |
| TagRoles.UsualLine | libs/cppt/processor.cc:36-71 | A line of plain text is one output statement of that text, with `\n` before the closing quote if the line ends |
| TagRoles.UsualEmptyLine | libs/cppt/processor.cc:41-43 | An empty line is written as `endl` |
| TagRoles.UsualEscape | libs/cppt/processor.cc:62-65 | A quote and a backslash get a backslash in front |
| TagRoles.ExpressionTags | libs/cppt/processor.cc:177-181 | For any tags: what stands between `start_expr` and `end_expr` is an expression, and what follows is parsed as it is, for every body that holds no end tag, if no other start tag begins with `start_expr` |
| TagRoles.CommentTags | libs/cppt/processor.cc:182-185 | What stands between `start_comment` and `end_comment` is a comment, and blanks and a newline after it go |
| TagRoles.CodeTags | libs/cppt/processor.cc:171-176 | What stands between `start_code` and `end_code` is code, stripped in front and behind |
| TagRoles.LateCodeTags | libs/cppt/processor.cc:171-189 | If a longer tag begins with `start_code`, as with the usual tags, the first character of the code escapes the strip |
| TagRoles.StripIs | libs/cppt/processor.cc:123-135 | The strip takes blanks and one newline, or blanks only when something else follows |
| TagRoles.NulEnds | libs/cppt/processor.cc:144-148 | What follows the first NUL is not read |
| Processors.Processor.ProcessChar | libs/cppt/processor.cc:150-300 | What is written, what is held and what is still to come stay the same goal after every character, which is tried at most twice |
| Processors.EmittedProgramMeansTemplate | libs/cppt/processor.cc:36-305 | For a template that leaves no expression or comment open, what is written is a printed program whose statements are closed and whose literals are well formed, and running it prints the text and runs the code in its places |
| Templates.CompiledMeaning | libs/cppt/processor.cc:36-119 | Compiled onto any sound beginning, the program runs to the effect of that beginning followed by what the template asks for |
| Templates.EmitPrintsProgram | libs/cppt/processor.cc:36-119 | The text written statement by statement is the compiled program printed |
| TemplateTexts.ParsedIsBack | libs/cppt/processor.cc:139-305 | Parsing the template written from any items that hold no tag of their own gives the items back, code bodies and what follows code and comments stripped of blanks and one newline |
| TemplateTexts.ParsedBack | libs/cppt/processor.cc:139-305 | Items that leave nothing to strip come back as they are |
| TemplateTexts.OnlyWhiteIsLost | libs/cppt/processor.cc:123-305 | For any tags and any template, the items written out again are the template but for white space and an unfinished tag at its end |
| Templates.RestIsFirst | libs/cppt/processor.cc:200-297 | A block ends at the first occurrence of its end tag |
| Templates.TextKeptIff | libs/cppt/processor.cc:154-198 | Text without a start tag comes out character by character if and only if it does not end in the beginning of one |
| Templates.CodeKeptIff | libs/cppt/processor.cc:123-135 | Code after a start tag recognised one character late keeps all but leading white space if and only if its first character is white or the second is not |
| GatherBuffers.Buffer.Resize | libs/gather/buffer.cc:29-46 | A new array of the size asked for, holding the same segments |
| GatherBuffers.Buffer.Add | libs/gather/buffer.cc:52-56 | The segment is appended, growing the array if needed, and its caller keeps the view without the block |
| GatherBuffers.Buffer.AddAll | libs/gather/buffer.cc:60-69 | Another buffer's bytes are appended, provided its owned blocks are unconsumed |
| GatherBuffers.DeepCopyIsRightIff | libs/gather/segment.cc:29-52 | A deep copy shows the same bytes whatever they are if and only if the segment owns nothing or nothing of its block has been consumed |
| GatherBuffers.Buffer.Insert | libs/gather/buffer.cc:76-85 | The segment goes in at its place, and its bytes into the flat bytes at that boundary |
| GatherBuffers.Buffer.Copy | libs/gather/buffer.cc:89-112 | Copies exactly the slice, cut at the end, for any layout of segments, and touches nothing behind it |
| GatherReaders.CopyFrom | libs/gather/buffer.cc:116-140 | Copying from an iterator is copying from the flat index it stands for; an iterator of another buffer gives nothing |
| GatherBuffers.Buffer.Fill | libs/gather/buffer.cc:147-165 | The non-empty segments in order, or one more than the size if they do not fit |
| GatherBuffers.Buffer.Limit | libs/gather/buffer.cc:197-219 | Keeps a prefix and returns its length |
| GatherBuffers.Buffer.Consume | libs/gather/buffer.cc:223-244 | Drops a prefix |
| GatherBuffers.Buffer.Tidy | libs/gather/buffer.cc:248-274 | What remains is the non-empty segments in their order, with the same bytes, and no owned block is lost if empty segments own none |
| GatherBuffers.Buffer.Compact | libs/gather/buffer.cc:248-274 | The scan with its queue of free places leaves exactly the non-empty segments, in order |
| GatherBuffers.Buffer.AddRun | libs/gather/buffer.cc:278-301 | Appends that slice of another buffer |
| GatherBuffers.Buffer.GetFlatData | libs/gather/buffer.cc:306-354 | Points at exactly the slice, in a segment or in the caller's block; for a positive length it fails exactly when the slice runs off the end |
| GatherBuffers.Buffer.Replace | libs/gather/buffer.cc:359-400 | Overwrites exactly the range asked for, as far as there are bytes, and leaves every other byte |
| GatherMeaning.ReplacedAt | libs/gather/buffer.cc:359-400 | Byte by byte: replacing changes those of the range and no others |
| GatherReaders.Begin | libs/gather/ot-gather.h:427-434 | The iterator at the beginning skips empty segments and stands for index 0 |
| GatherReaders.BufferIterator.Increment | libs/gather/ot-gather.h:209-218 | One flat index further, over any run of empty segments, stopping at the end |
| GatherReaders.BufferIterator.Advance | libs/gather/ot-gather.h:220-232 | So many flat indexes further, stopping at the end |
| GatherReaders.BufferIterator.Decrement | libs/gather/ot-gather.h:241-248 | One flat index back, stopping at the beginning, from the end too |
| GatherReaders.BufferIterator.Retreat | libs/gather/ot-gather.h:250-265 | Goes back by the distance, which at the end of the buffer is the wrapped `--sub` and one; past the beginning it throws, or stops there if the first segment is empty |
| GatherReaders.BufferIterator.NoWayBack | libs/gather/ot-gather.h:146-163 | At the end of a buffer with empty segments only, a turn of the `-=` loop comes back to where it was |
| GatherReaders.Reader.BasicRead | libs/gather/reader.cc:18-27 | Reads what a reader over the flat bytes reads, and moves as far |
| GatherReaders.Reader.RewindBy | libs/gather/reader.cc:40-48 | A rewind that fits is right if and only if it is not by zero at the end |
| GatherReaders.RunReader | libs/gather/reader.cc:18-48 | For every sequence of reads, skips and rewinds that does not rewind by zero at the end, the outcomes are those of a reader over the flat bytes |
| GatherMeaning.NextReadAt | libs/gather/reader.cc:18-46 | Over the flat bytes: after a read, a skip or a rewind the next read starts that much further on, or back; a skip past the end and a rewind past the beginning are refused and move nothing |
| Tokenisers.Tokeniser.ReadToken | libs/expr/token.cc:17-141 | One read takes exactly the token at the front, with the numbers' optional fraction and the two-character operators, or reports what the source throws |
| Spellings.TokensIffSpelt | libs/expr/token.cc:17-141 | The tokeniser reads a list of tokens from a text if and only if the text spells it: each token written out, ending where nothing can carry it on |
| Spellings.ReadBack | libs/expr/token.cc:17-141 | Any list of tokens written with white space wherever two would run together reads back as itself |
| Spellings.RunTogether | libs/expr/token.cc:17-141 | Two tokens that need the space never read back without it |
| Grammars.EvaluatesIff | libs/expr/eval.cc:32-215 | Evaluating a text gives a value if and only if the text spells the yield of a tree of the grammar that has this value |
| Grammars.SucceedsIff | libs/expr/eval.cc:32-215 | Evaluating succeeds if and only if the text spells an expression all of whose names are known |
| Grammars.OneValue | libs/expr/ot-expr.h:9-13 | Two trees of the grammar with the same tokens have the same value |
| Grammars.ValueIffNamesKnown | libs/expr/eval.cc:137-199 | A tree has a value if and only if every name in it is known: no operand is skipped |
| Evaluators.Evaluator.Evaluate | libs/expr/eval.cc:203-215 | The recursive evaluator over the streaming tokeniser returns the value of every tree that the text spells, or the exception |
| ExpressionTexts.OperatorIs | libs/expr/eval.cc:81-199 | For any two operands (numbers, known names, or any text with a value, in brackets) with an operator written between them, the text evaluates to that operation on their values: `*`, `/`, `+` and `-` of the arithmetic, and one or zero for each comparison and for both connectives |
| ExpressionTexts.JoinedIs | libs/expr/eval.cc:81-199 | The value of two trees joined by an operator, for each of the twelve, from the values of the two |
| ExpressionTexts.SignIs | libs/expr/eval.cc:34-42 | An operand evaluates to its value, after `-` to its negative, after `!` to zero if it is true and one if not |
| ExpressionTexts.Grouping | libs/expr/eval.cc:81-199 | Of two operators between three operands, that which binds closer is joined first and the first of those that bind alike (in order `*` and `/`, `+` and `-`, the comparisons, the connectives): brackets put there change nothing |
| ExpressionTexts.SignBindsFirst | libs/expr/eval.cc:34-42 | A sign belongs to the operand after it, whatever operator follows |
| ExpressionTexts.ComparisonsDoNotChain | libs/expr/eval.cc:137-169 | Two comparisons in a row are refused |
| ExpressionTexts.NumbersAre | libs/expr/eval.cc:81-133 | For any numbers a, b, c: `a-b` is the difference, `a+b*c` the sum with the product, `a-b-c` groups to the left |
| ExpressionTexts.FailuresAre | libs/expr/eval.cc:60-74 | An empty text, a bracket without its partner, and something after the end each throw their exception |
| ExpressionTexts.UnknownName | libs/expr/eval.cc:52-57 | A name that is not known throws, with the name |
| ExpressionTexts.BadCharacters | libs/expr/token.cc:100-139 | Half an operator, an assignment and an unknown character each throw their exception |
| ExpressionTexts.SpacesIgnored | libs/expr/token.cc:18-23 | White space before a token makes no difference |
| Evaluators.Evaluator.ReadFactor | libs/expr/eval.cc:32-77 | Reads what the grammar's factor takes from the tokens left, and leaves the rest to be read |
| Evaluators.Evaluator.ReadPredicate | libs/expr/eval.cc:137-169 | Reads a side and at most one comparison |
| Ciphers.UnsealSealed | libs/crypto/aes.cc:52-90 | Chaining with or without residual termination block is undone for data of every length |
| Ciphers.ConversationUnsealed | libs/crypto/aes.cc:64-90 | Two objects that start from one chaining value stay in step over any list of messages |
| Ciphers.SealedInPieces | libs/crypto/aes.cc:64-66 | Encrypting a message whole, or in two calls cut after whole blocks, gives the same bytes |
| Ciphers.UnsealedInPieces | libs/crypto/aes.cc:64-66 | The same for decrypting |
| Ciphers.ChunksStreamAsOne | libs/crypto/aes.cc:217-224 | In counter mode a message cut into any segments comes out as if in one piece |
| AesBuffers.EncryptBuffer | libs/crypto/aes.cc:199-229 | Refuses unless in counter mode with a 128-bit key and an initial counter; else one stream goes over the segments in place, so that the flat bytes are those of one piece, however they are cut |
| Ciphers.UnpadIff | libs/crypto/pkcs7.cc:38-81 | Padding keeps the data and fills up to the multiple with the number of bytes added; its length is read back if and only if at most 255 bytes were added |
| AesModes.Aes.Encrypt | libs/crypto/aes.cc:21-104 | In place, in the mode that the settings call for: exactly the first bytes become the encrypted or decrypted message, the rest of the array stays, the chaining value moves on, and it refuses without a usable key or counter |
| AesMeaning.CounterModeBits | libs/crypto/aes.cc:39-51 | Counter mode, bit by bit: each bit of the result is the sum without carry of the bit of the data and that of the stream |
| AesMeaning.ChainedModeBlocks | libs/crypto/aes.cc:52-67 | Chained mode: every block is the encryption of that block of the data with the block before it, as encrypted, or the initial value, laid on it |
| AesMeaning.BlockModeBlocks | libs/crypto/aes.cc:91-103 | Without an initial value every whole block is encrypted by itself |
| AesMeaning.KeyDoubles | libs/crypto/aes.cc:177-184 | A wrapped 16-byte key takes 32 bytes |
| Ciphers.ResidueIs | libs/crypto/aes.cc:69-89 | The bytes after the last whole block are masked by the encryption of that block, as encrypted, with the initial value laid on it; a message of less than a block by an encrypted random value |
| Ciphers.ResidueClear | libs/crypto/aes.cc:69-70 | Unless the residual termination block is asked for, they stay clear |
| Ciphers.XorIs | libs/crypto/aes.cc:84-88 | The mask is an exclusive or: bit by bit the sum of both modulo two |
| Ciphers.XorZeroAndSelf | libs/crypto/aes.cc:84-88 | Masking with zero changes nothing, and a byte masked with itself is zero |
| Ciphers.ZeroStreamLeaves | libs/crypto/aes.cc:39-51 | A stream of zeros leaves the data as they are |
| Ciphers.ZeroIvFirst | libs/crypto/aes.cc:67 | With an initial value of zeros the first block is the encryption of the first block of the data |
| AesModes.DecryptedEncrypted | libs/crypto/aes.cc:21-104 | Decrypting undoes encrypting in all three modes, with or without residual termination block, for every length |
| AesModes.RestStaysClear | libs/crypto/aes.cc:91-101 | Without an initial value the bytes after the last whole block are not encrypted, even if a residual termination block is asked for |
| AesModes.PaddedRoundTrip | libs/crypto/aes.cc:108-172 | The padded form is never empty and decrypts to the original in every mode |
| AesModes.Aes.EncryptString | libs/crypto/aes.cc:108-126 | The ciphertext is the padded plaintext encrypted; it fails exactly when the settings are unusable |
| AesModes.Aes.DecryptString | libs/crypto/aes.cc:138-163 | The plaintext is the ciphertext decrypted and unpadded; the empty string stays empty |
| AesModes.Aes.EncryptKey | libs/crypto/aes.cc:177-184 | Only a 128-bit key is wrapped, padded to 256 bits |
| AesModes.Aes.DecryptKey | libs/crypto/aes.cc:189-195 | Only a 256-bit key is unwrapped, its first half being the key |
| AesModes.WrappedKeyUnwraps | libs/crypto/aes.cc:177-195 | A wrapped key unwraps to the same 128 bits |
| AesModes.PadInPlace | libs/crypto/pkcs7.cc:52-62 | Puts the padding behind the data in place and returns the padded length |
| Formats.IntegerBack | libs/chan/writer.cc:76-184 | An integer's bytes in either order read back as the integer cut to that many bytes |
| Formats.FormatBackIff | libs/chan/writer.cc:34-216 | For every list of integers, fixed fields, skips and alignments, from any offset, mirrored reads return what was written and end where it ended, except exactly when a limit ends with the record and the last item takes no byte |
| BytePlaces.ItemByteAt | libs/chan/writer.cc:34-216 | Every byte by its place: of an integer, highest or lowest first; of a fixed field, the text cut to the length and then the padding; of a gap or an alignment, zero |
| BytePlaces.BackAsItIs | libs/chan/reader.cc:233-409 | An integer that fits its bytes, and a text as long as its field, read back as they are |
| Formats.AlignFormula | libs/chan/writer.cc:213-216 | The distance computed for an alignment is that to the next multiple |
| Records.RecordBackIff | libs/chan/reader.cc:233-409 | The same for any items that read back one by one |
| ChannelReaders.Reader.BasicRead | libs/chan/ot-chan.h:652-660 | Through limits nested to any depth, a read delivers a first piece of what is left and draws it from every level |
| ChannelReaders.Reader.LeftIsFirst | libs/chan/ot-chan.h:634-660 | What a nest of limited readers can deliver is a prefix of what every level below has, no longer than any limit |
| ChannelReaders.DrewEach | libs/chan/ot-chan.h:652-660 | Drawing so much takes exactly the next bytes at every level of a nest, shortens each limit and moves each offset by as much |
| ChannelReaders.Reader.TryRead | libs/chan/reader.cc:29-49 | An exact read gives the next bytes, false with nothing read, or an error after a part, independently of the pieces in which the source delivers; exactly what it read is drawn at every level |
| ChannelReaders.Reader.ReadToEof | libs/chan/reader.cc:102-146 | Reading to the end or a limit gives exactly the bytes up to there, independently of the pieces, and draws them at every level |
| ChannelReaders.Reader.ReadItems | libs/chan/reader.cc:233-409 | Mirrored reads of a record through any reader, limited or not, are those of the record's specification, which is at its end with the data only under a limit that does not reach beyond them |
| ChannelReaders.Reader.ReadNbo64 | libs/chan/reader.cc:286-290 | Two four-byte reads are one eight-byte read, where they fail too |
| ChannelWriters.Writer.BasicWrite | libs/chan/block-chan.cc:61-71 | A write appends everything, or throws and changes nothing |
| ChannelWriters.Writer.WriteItems | libs/chan/writer.cc:34-216 | A record comes out as specified, in a string always and in a block exactly when there is room |
| ChannelWriters.Writer.Rewind | libs/chan/string-chan.cc:74-84 | Going back takes off exactly that many bytes, or throws if there are fewer |
| ChannelRoundTrips.WriteThenRead | libs/chan/writer.cc:34-216 | A record written and read through the two classes comes back, whatever follows and in whatever pieces it arrives |
| ChannelRoundTrips.WriteThenReadLimited | libs/chan/ot-chan.h:634-684 | Under a limit of any size it comes back exactly if the limit lets all of it through and, where it ends with the record, the last item takes a byte |
| Records.CutRecordFails | libs/chan/reader.cc:233-409 | A record that is cut short is never read, wherever the cut is |
| ChannelRoundTrips.WriteBoth | libs/chan/block-chan.cc:61-84 | A block large enough ends up with the bytes that a string does; a smaller one makes the writer throw |
| BitFields.FieldsBack | libs/chan/bits.cc:36-95 | Fields of any widths read back cut to their widths, whatever bits follow |
| BytePlaces.BitAt | libs/chan/bits.cc:21-52 | The bits of bytes come byte by byte, the highest first |
| BytePlaces.FieldBitAt | libs/chan/bits.cc:60-95 | The bits of a field are its low ones, the highest first |
| BytePlaces.CodeIs | libs/chan/bits.cc:120-130 | An Exp-Golomb code is the value plus one in binary, and before it a zero for each bit but the first |
| BitFields.CodeBack | libs/chan/bits.cc:120-130 | Every value reads back from its Exp-Golomb code, which takes exactly its bits |
| BitFields.CodeOnly | libs/chan/bits.cc:120-130 | What is read as a value starts with the code of that value |
| BitFields.ShortCodes | libs/chan/bits.cc:120-130 | The values below 2^31 - 1 are exactly those whose codes start with at most 30 zeros |
| BitChannels.BitWriter.WriteBits | libs/chan/bits.cc:60-95 | Appends the low bits of a number, highest first, or throws exactly when a byte does not fit |
| BitChannels.BitWriter.Flush | libs/chan/bits.cc:100-112 | Fills up the last byte with zeros, if there is one |
| BitChannels.BitReader.ReadBits | libs/chan/bits.cc:21-52 | Takes that many bits as a number, highest first, or throws exactly when there are fewer |
| BitChannels.BitReader.ReadExpGolomb | libs/chan/bits.cc:120-130 | Returns a value if and only if the bits start with a code whose value fits the source's 32-bit shifts, and takes exactly its bits |
| ChannelRoundTrips.WriteBitsThenRead | libs/chan/bits.cc:21-112 | Fields written, flushed and read through the two classes come back, and fewer than eight zero bits are left |
| ChannelRoundTrips.WriteCodesThenRead | libs/chan/bits.cc:120-130 | Any list of values below 2^31 - 1 comes back from its codes through the reader, and fewer than eight zero bits are left |
| CacheSteps.RunsAreConsistent | libs/cache/ot-cache.h:567-742 | In every interleaving of the sections of any number of adds with whole other operations, IDs stay distinct and every pointer taken is cached, given back, deleted or overwritten, once |
| CacheSteps.LosesIff | libs/cache/ot-cache.h:244-251 | A step overwrites a pointer, which nobody then deletes, if and only if it is an insertion under an ID that has been filled since the add removed what was there |
| CacheSteps.LimitByAdders | libs/cache/ot-cache.h:244-251 | If at most k adds are ever past their look at the size at once, the cache exceeds its limit by less than k in every state of every interleaving |
| CacheSteps.TwoAddersExceed | libs/cache/ot-cache.h:244-251 | A run of two overlapping adds that leaves two entries under a limit of one |
| CacheSteps.SameIdLoses | libs/cache/ot-cache.h:244-251 | A run of two overlapping adds under one ID that loses the first pointer |
| CacheSteps.CountWrapsIff | libs/cache/ot-cache.h:672-676 | An add that found the limit reached is to evict more than there is if and only if, when it counts, there is room for two or more |
| CacheSteps.AloneIsAdd | libs/cache/ot-cache.h:567-720 | The sections of one add with nothing in between come to the add of the specification |
| CacheSafety.RunsAreSafe | libs/cache/ot-cache.h:567-747 | Over every run with a positive limit the cache stays within it, its IDs are distinct, and every pointer it took is cached, given back or deleted |
| CacheSafety.EachPointerOnce | libs/cache/ot-cache.h:567-747 | If each pointer is handed in once, each is in exactly one of those places, once; after destruction none is cached |
| CacheSafety.EvictionIs | libs/cache/ot-cache.h:672-720 | A successful eviction removes exactly as many as needed, a failed one stops when nothing is older than now or the worst is refused; none that goes was used, or added, later than one that stays |
| CacheMeaning.WorstByUseIff | libs/cache/ot-cache.h:832-833 | By least recent use a round takes exactly the first of the entries used longest ago, if that is before now, and nobody if nobody was used before now |
| CacheMeaning.WorstByAgeIff | libs/cache/ot-cache.h:847-848 | By age the same, on the time of addition |
| CacheMeaning.EvictsByUse | libs/cache/ot-cache.h:672-720 | A whole eviction by least recent use: whoever goes was used no later than anybody who stays; it fails when nobody left was used before the last moment it looked, or when one left that was used no later than the others refuses |
| CacheMeaning.EvictsByAge | libs/cache/ot-cache.h:672-720 | By age the same, on the time of addition |
| CacheMeaning.GoneBefore | libs/cache/ot-cache.h:672-720 | Whoever goes was used, or added, before the moment of one of the rounds |
| CacheMeaning.NothingEvicted | libs/cache/ot-cache.h:760-766 | Without an evictor nothing goes |
| CacheMeaning.TouchIs | libs/cache/ot-cache.h:286-301 | Touching renews one entry's time of use, counts it, and leaves everything else alone |
| CacheMeaning.TouchedGoesLast | libs/cache/ot-cache.h:286-301 | An entry touched after every other use stays in an eviction by least recent use as long as anything does |
| CacheMeaning.AddedIs | libs/cache/ot-cache.h:567-575 | A pointer that is taken is there under its ID, added and used now; whatever else is there was there before, under another ID |
| CacheMeaning.TakenOut | libs/cache/ot-cache.h:595-636 | Detaching gives back the pointer under that ID, removing deletes it, and the other entries stay |
| CacheSafety.AddKeeps | libs/cache/ot-cache.h:567-575 | An add that is alone keeps limit and ledger; a failed one has still deleted what was under the ID, and replacing never fails |
| CacheSafety.TidyKeeps | libs/cache/ot-cache.h:639-666 | Tidying leaves exactly the entries that the policy keeps or that refuse, in order |
| CacheMeaning.StaysTidyIff | libs/cache/ot-cache.h:789-818 | An entry stays in a tidy-up if and only if it is refused, nothing times out, or less than the timeout has passed since it was used, or added, as the policy has it |
| CacheSafety.SetLimitIsRightIff | libs/cache/ot-cache.h:229-233 | Setting the limit leaves the smaller of the number of entries and the limit (all, for limit 0) for every clock and refusal, if and only if the cache is empty, has room for exactly one more, or never evicts and is not over the limit |
| CacheSafety.SetLimitUsually | libs/cache/ot-cache.h:229-233 | With everything in the past and nobody refusing, a limit reached or passed leaves one entry less than it allows, and any other empties the cache unless it leaves exactly one place |
| CacheSafety.EvictFarBelowLimit | libs/cache/ot-cache.h:672-720 | More than one place short of the limit an eviction fails, and takes everything that can go |
| CacheSafety.RaisingLimitEmpties | libs/cache/ot-cache.h:229-233 | Raising the limit by more than one place empties a cache whose entries are in the past |
| PointerCaches.PointerCache.Evict | libs/cache/ot-cache.h:672-720 | With nothing in between, the rounds in place, each showing all entries to the policy, evict what the specification says |
| PointerCaches.PointerCache.Add | libs/cache/ot-cache.h:567-575 | With nothing in between, removes the old pointer, makes room and takes the new one; a positive limit holds afterwards |
| PointerCaches.PointerCache.Tidy | libs/cache/ot-cache.h:639-666 | The single pass over the map deletes exactly what is neither kept nor refused |
| PointerCaches.PointerCache.Detach | libs/cache/ot-cache.h:595-606 | Gives the pointer to the caller and forgets it without deleting it |
| AlarmClocks.RunsAreSafe | libs/alarm/alarm.cc:27-125 | Over every run the timer is set to the first time in the map, or to the invalid stamp when it is empty, and every alarm set is waiting, told or removed, exactly once for each time it was newly set |
| AlarmClocks.ArmedIff | libs/alarm/alarm.cc:27-117 | The timer is armed if and only if somebody waits and nobody waits for the invalid stamp |
| AlarmClocks.ToldOnTickIff | libs/alarm/alarm.cc:78-117 | An observer is told on a tick if and only if he waits, nobody waits for an earlier time, and his time is valid and strictly over |
| AlarmClocks.WorksIff | libs/alarm/alarm.cc:27-117 | The timer is armed whenever somebody waits, and who waits first is told once his time is over, if and only if nobody waits for the invalid stamp |
| AlarmClocks.WorksThroughoutIff | libs/alarm/alarm.cc:27-125 | Over a whole run this holds in every state if and only if no alarm is ever added for the invalid stamp |
| AlarmClocks.EverybodyToldIff | libs/alarm/alarm.cc:78-117 | As many looks at the clock as there are times, after the last of them, tell everybody once, if and only if nobody waits for the invalid stamp |
| AlarmClocks.NobodyIsTold | libs/alarm/alarm.cc:27-117 | While an alarm for the invalid stamp waits and none such is removed, no step tells anybody |
| AlarmClocks.SecondWaitsForEver | libs/alarm/alarm.cc:36-44 | A run: one alarm for the invalid stamp, one for a valid time; no number of looks at the clock tells the second observer |
| AlarmClocks.RemovesOnlyNamedIff | libs/alarm/alarm.cc:48-74 | Removing takes the named alarm and no other, if and only if it is not somebody else who is alone at that time |
| AlarmClocks.RemoveSaysIff | libs/alarm/alarm.cc:48-74 | Removing returns true if and only if somebody waits at that time, whoever was named |
| AlarmClocks.Clock.Add | libs/alarm/alarm.cc:27-44 | Adds the observer to the slot of that time, making one if needed, and sets the timer if it is the earliest |
| AlarmClocks.Clock.Remove | libs/alarm/alarm.cc:48-74 | Removes the observer or the whole slot and keeps the timer on the earliest time |
| AlarmClocks.Clock.Look | libs/alarm/alarm.cc:78-117 | A look at the clock tells everybody in the earliest slot if its time is valid and over, and moves the timer on |
| DnsMessages.MessageAnswered | libs/dns/resolver.cc:131-191 | For every well-formed message (section 4.1 of RFC 1035), with labels (even longer than it allows) or pointers in its names, the answer is the data of the first record of the type asked for, or nothing if there is none or the message reports an error |
| DnsResolvers.Query | libs/dns/resolver.cc:131-191 | For any bytes whatever the reader reads to an end, inside them, and gives that answer |
| DnsResolvers.QueryTxt | libs/dns/resolver.cc:196-226 | Gives the repacked strings of the first TXT record, or nothing if its lengths do not fit |
| DnsAnswers.TxtAnswered | libs/dns/resolver.cc:131-226 | A message whose first record of type 16 holds some strings gives these strings, each ended by byte 10 |
| DnsAnswers.CertAnswered | libs/dns/resolver.cc:131-267 | A message whose first record of type 37 is of kind 1 gives what follows its key tag and algorithm |
| DnsAnswers.NothingAnswered | libs/dns/resolver.cc:131-267 | Without such a record, or with an error code, there is nothing |
| DnsMessages.StringsRepacked | libs/dns/resolver.cc:196-226 | A record's strings come out in order, each ended by a newline |
| DnsMessages.RepackedIff | libs/dns/resolver.cc:196-226 | The data is accepted if and only if it is a list of strings with their lengths |
| DnsResolvers.QueryCert | libs/dns/resolver.cc:231-267 | Gives the certificate in the first CERT record |
| DnsMessages.CertificateBack | libs/dns/resolver.cc:231-267 | A PKIX record gives its certificate, any other kind nothing |
| Paths.PartsRebuildIff | libs/file/path.cc:69-152 | Directory and leaf make up the path again if and only if the directory is not written "." and does not end in a slash |
| Paths.DirnameOfWritten | libs/file/path.cc:110-152 | The directory of a clean path is its components but the last, and the leaf is the last |
| Paths.Path.Resolve | libs/file/path.cc:214-229 | The loop over leading steps up ends, with an absolute path as it is and a relative one against the directory |
| Paths.ResolvedIs | libs/file/path.cc:214-229 | k steps up and a clean rest against a clean path drop k components of its directory, whatever they are; an absolute one stops at the root, a relative one that runs out keeps the steps it could not take |
| PathPlaces.PlaceKeptIff | libs/file/path.cc:210-229 | The path that this gives leads to the place that is meant, walked component by component, if and only if all dropped components are names, or an absolute path is left at its root |
| PathPlaces.DotFirstIsSame | libs/file/path.cc:214-229 | A relative base with "." in front, where the loop stops early, leads to the same place as without it |
| PathPlaces.StepUpIsDropped | libs/file/path.cc:214-229 | "../y" against "../x" gives "y", which leads elsewhere than two up |

## Left out

- Atomic sections: a section under a mutex is one step.  The alarm clock has two mutexes, its own and the timer's; each model step holds both.  Sections that interleave between the two are not modelled.
- CacheSafety.AddKeeps: adding is one step here; adds that overlap are the subject of CacheSteps.
- PointerCaches.PointerCache.Evict: the rounds are one step here, as for PointerCaches.PointerCache.Add; what others do between them is the subject of CacheSteps.
- CacheSteps.RunsAreConsistent: a pointer that a thread has taken out of the map counts as deleted at once; the limit does not change during a run.
- Liveness, lock order, and whether queued actions are all handled at shutdown.
- Unseen synchronisation (`MT::Queue`, `MT::Condition`, `MT::RWMutex`): a list, a flag that is waited on, and atomic sections.
- GatherBuffers.Buffer.Replace: blocks are held by value in their segments, so two segments that borrow one block do not see each other's writes, and source and target never overlap.
- GatherBuffers.Buffer.Insert: the program aborts on an index past the count, as it does when resizing below the count; a caller must avoid both.
- GatherBuffers.Buffer.AddAll: adding a buffer to itself is excluded: the loop never reaches the growing count.
- GatherBuffers.Buffer.AddRun: adding a run of a buffer to itself is excluded: growing the array leaves the source reading the old one.
- GatherReaders.BufferIterator.Retreat: a buffer with segments but no byte is excluded, since the call does not return (NoWayBack).
- GatherReaders.BufferIterator.Decrement: a buffer without segments is excluded, since the source reads a segment that is not there.
- Iterators compare by data pointer, which is not modelled; nor is an iterator whose buffer changes under it.
- Sizes do not overflow `size_t`, except in the `-=` of the iterator, where the wrap-around is modelled.
- Processors.Processor.Process: tags that share no stem or are not shift-safe are excluded; the usual ones are fine (Processors.UsualTagsOk).
- TemplateTexts.ParsedIsBack: blocks left open at the end are not written.
- C++ is modelled as far as string literals, output statements and code; the code itself is text.
- Numbers keep their text; conversion to `double`, and arithmetic on it, are parameters of the evaluator.
- The block cipher is any invertible function on blocks and the counter-mode stream any function of key, initial value and place; chaining follows section 6.2 of NIST SP 800-38A.  A change of key between calls, key schedules and random generation are not modelled.
- AesModes.Aes.Encrypt: the copy of the previous block when decrypting less than one block is left out, since its value is never used.
- AesModes.Aes.DecryptVector: an empty vector is excluded, since the source takes the address of its first byte.
- BitChannels.BitReader.ReadExpGolomb: with more than 30 leading zeros nothing is said about the number returned, since the source shifts past 32 bits.
- Floating-point and fixed-point channel input and output, `read_to_eof` without a limit, `LimitedReader::skip_to_eof`, and a string writer that starts on a string that is not empty.
- The base `Cache` for copied content, which evicts even when it overwrites, its iterators and its dump.
- Sending DNS queries, responses longer than the buffer, logging, and the Windows branches.
- Paths.ResolvedIs: a relative base that begins with "." is treated apart, in PathPlaces.DotFirstIsSame.
- PathPlaces.PlaceKeptIff: places are taken by names, without links; against an absolute base the rest holds no further "..".
- Paths: `realpath`, `extend`, expansion, the file system, and an alternative separator.
- Databases, S3, HTTP, sockets, XML, Huffman codes and the other libraries.
