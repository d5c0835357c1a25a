# slack-content-bot, modelled in Dafny

slack-content-bot watches Slack channels for conversations that could be
turned into social-media posts. Messages are buffered per channel and per
thread. A channel is evaluated once it is due. Evaluation cuts the buffered
messages into conversation chunks, after privacy filtering. Each chunk goes
to a language model. The model's answer is parsed into a content
opportunity. Opportunities strong enough are drafted as a LinkedIn post and
a post for X, and the drafts are posted to Slack as blocks. Users can edit
the drafts or dismiss them with feedback. The feedback is summarised back
into the detection prompt.

This project models the deterministic core of that pipeline as pure
functions over immutable data, with proofs of what each part promises:

- `Text`: strings as JavaScript sees them, sequences of UTF-16 code units.
  It covers `trim`, `startsWith`, `includes`, `indexOf`, `split` on one
  unit, case folding for the `i` regex flag, and decimal numerals.
- `Assoc`: JavaScript's insertion-ordered `Map` as a sequence of pairs with
  distinct keys.
- `Messages`: buffered messages, conversation chunks and buffer settings.
- `BufferStore`: the per-channel buffers and the operations that add, count
  and clear messages (`src/buffer/messageBuffer.ts`). Every queue is bounded
  by `maxMessages`.
- `Segmenter`: the gap segmentation of a channel's filtered main messages.
- `Scheduler`: the due rule, the thread pass, one channel's evaluation, and
  the drain `getAllPendingChunks`.
- `Privacy`: the four exclusion rules and the order-preserving filter
  (`src/privacy/filter.ts`).
- `Detector`: `parseResponse`, the line parser of the model's answer
  (`src/detector/contentDetector.ts`).
- `Drafts`: `parseDrafts`, which splits the model's drafts at the
  `LINKEDIN:` and `X:` markers (`src/drafts/draftGenerator.ts`).
- `Delivery`: four pieces of the Slack side (`src/delivery/slackDelivery.ts`
  and the handlers in `src/index.ts`):
  - `buildMessageLink`;
  - the strength gate of the run loop;
  - the blocks a suggestion is posted as;
  - `extractDraft` and the topic read-back, which read those blocks.
- `Feedback`: the in-memory feedback history, its newest-first listing, and
  the negative-feedback summary (`src/feedback/feedbackManager.ts`).

Conventions:

- Time is integer milliseconds since the epoch. `Date.now()` becomes an
  explicit `now` parameter.
- The gap in minutes is compared as a millisecond difference against
  `conversationGapMinutes * 60000`.
- Configuration is passed in as parameters: `Settings` for the buffer and
  `Policy` for the privacy rules.
- JavaScript's `toLowerCase` is an abstract per-unit function `lower`.

## Model

| member | source | states |
|---|---|---|
| Text.Encode | src/config.ts:28 | An astral character such as the lock emoji is two UTF-16 units, a high surrogate then a low surrogate, which recombine to the code point. |
| Text.Trim | src/detector/contentDetector.ts:48 | `trim` leaves a text with no white space (ECMA-262 WhiteSpace or LineTerminator) at either end, no longer than the input. |
| Text.TrimBounds | src/detector/contentDetector.ts:48 | The trim is the slice between an all-white prefix and an all-white suffix. |
| Text.TrimUnique | src/detector/contentDetector.ts:48 | Any trimmed slice flanked only by white space is the trim, so `trim` is characterised by its result alone. |
| Text.TrimIdempotent | src/detector/contentDetector.ts:48 | Trimming twice is trimming once. |
| Text.TrimPadded | src/drafts/draftGenerator.ts:32-33 | White space added on both sides of a text does not change its trim. |
| Text.IndexOfFrom | src/index.ts:315 | The leftmost occurrence at or after a position: it occurs there and nowhere between the position and it; `None` only if it occurs nowhere after. |
| Text.LastIndexOf | src/privacy/filter.ts:23-24 | The rightmost occurrence: it occurs there and at no later index; `None` exactly when the pattern does not occur. |
| Text.LowerText | src/privacy/filter.ts:8 | Lower-casing maps every unit through `lower` and keeps the length. |
| Text.Split | src/detector/contentDetector.ts:40 | `split('\n')` yields at least one piece and no piece holds the separator. |
| Text.JoinSplit | src/detector/contentDetector.ts:40 | Joining the pieces of a split with the separator gives back the text. |
| Text.SplitJoin | src/detector/contentDetector.ts:40 | Splitting a join of separator-free pieces gives back the pieces. |
| Text.Decimal | src/feedback/feedbackManager.ts:75 | A count prints as a non-empty numeral of decimal digits with no leading zero. |
| Text.DecimalRoundTrip | src/feedback/feedbackManager.ts:75 | The printed numeral reads back as the count. |
| Assoc.Find | src/buffer/messageBuffer.ts:22 | The position found holds the key; `None` exactly when no pair has it. |
| Assoc.FindUnique | src/buffer/messageBuffer.ts:30 | In a map, looking up the key at a position finds that position. |
| Assoc.PutGet | src/buffer/messageBuffer.ts:42-48 | After `set`, the key maps to the new value, every other key keeps its value, and keys stay distinct. |
| Assoc.PutKeys | src/buffer/messageBuffer.ts:73 | `set` keeps iteration order: an existing key stays in place, a new key goes last. |
| Assoc.RemoveGet | src/buffer/messageBuffer.ts:175 | After `delete`, the key is gone, every other key keeps its value, and keys stay distinct. |
| Assoc.RemoveKeys | src/buffer/messageBuffer.ts:175 | `delete` keeps the relative order of the other pairs. |
| Assoc.RemoveMember | src/buffer/messageBuffer.ts:175 | `delete` keeps every pair with another key. |
| Assoc.SumRemove | src/buffer/messageBuffer.ts:217 | Deleting a key takes exactly its value's size off a sum over the map. |
| BufferStore.GetBuffer | src/buffer/messageBuffer.ts:21-31 | `getBuffer` returns the stored buffer of a known channel and leaves the store alone; for a new channel it appends a fresh, empty buffer and returns it. |
| BufferStore.GetBufferOthers | src/buffer/messageBuffer.ts:21-31 | Creating a buffer changes no other channel and keeps channel ids distinct. |
| BufferStore.BoundedPush | src/buffer/messageBuffer.ts:58-63 | A push grows the queue by one until it holds `maxMessages`, then keeps its length; the pushed message is last. |
| BufferStore.BoundedPushSuffix | src/buffer/messageBuffer.ts:58-63 | Only the front is ever evicted: the queue after a push is a suffix of the old queue plus the message. |
| BufferStore.PushAllKeepsLast | src/buffer/messageBuffer.ts:49-63 | A queue fed message by message holds exactly the last `maxMessages` messages, in arrival order. |
| BufferStore.Route | src/buffer/messageBuffer.ts:36-65 | `addMessage` on the channel's buffer raises its unevaluated counter by exactly one, eviction or not. |
| BufferStore.RouteMain | src/buffer/messageBuffer.ts:56-64 | A message outside a thread is pushed onto main; the threads do not change. |
| BufferStore.RouteThread | src/buffer/messageBuffer.ts:40-55 | A threaded message is pushed onto its thread's queue, created empty if new. The thread's last activity becomes the message's timestamp. Main and every other thread stay as they were. |
| BufferStore.AddMessageChannels | src/buffer/messageBuffer.ts:36-38 | `addMessage` changes only the message's channel, which holds the routed buffer afterwards. |
| BufferStore.AddMessageBounded | src/buffer/messageBuffer.ts:53-63 | Once every queue holds at most `maxMessages`, it still does after any `addMessage`. |
| BufferStore.AddMessageTotal | src/buffer/messageBuffer.ts:49-63 | The total held grows by one, or stays the same when the target queue was full. |
| BufferStore.MessageCount | src/buffer/messageBuffer.ts:201-206 | `getMessageCount` is main's length plus every thread's length, counted through `getBuffer`. |
| BufferStore.TotalMessageCount | src/buffer/messageBuffer.ts:208-214 | `getTotalMessageCount` is the sum of main and thread lengths over all channels. |
| BufferStore.ClearChannelEffect | src/buffer/messageBuffer.ts:216-218 | `clearChannel` forgets the channel and keeps every other one. The total drops by exactly that channel's messages. |
| BufferStore.ClearAll | src/buffer/messageBuffer.ts:220-222 | After `clearAll` no message is held and no channel is known, so every counter and evaluation time is gone. |
| BufferStore.ClearAllForgets | src/buffer/messageBuffer.ts:220-222 | After `clearAll` any channel is unknown and `getBuffer` starts it afresh at `now`, with a zero counter. |
| Scheduler.AnyThreadIdle | src/buffer/messageBuffer.ts:91-98 | The thread scan finds an idle thread exactly when some thread is non-empty and idle for at least the gap. |
| Scheduler.IsDueIff | src/buffer/messageBuffer.ts:73-99 | A channel is due iff one of three holds: its counter reached the threshold; main is non-empty and `now` minus its last timestamp is at least the gap; or some non-empty thread has been idle at least the gap. |
| Scheduler.DueChannels | src/buffer/messageBuffer.ts:70-102 | A channel is listed exactly when it is due. |
| Scheduler.DueChannelsOrder | src/buffer/messageBuffer.ts:70-102 | The due channels are listed once each, in map order. |
| Scheduler.ShouldEvaluateIff | src/buffer/messageBuffer.ts:104-106 | `shouldEvaluate` holds exactly when some channel is due. |
| Scheduler.CloseThreads | src/buffer/messageBuffer.ts:158-177 | The chunks and the kept threads together number the threads: each thread yields a chunk or is kept. |
| Scheduler.CloseThreadsKeeps | src/buffer/messageBuffer.ts:158-177 | The threads left in the map are exactly the ones that do not close, unchanged and in map order. |
| Scheduler.CloseThreadsChunks | src/buffer/messageBuffer.ts:158-177 | The thread pass emits exactly one chunk per closing thread, in map order. A thread closes when at least 2 of its messages pass the filter and more than the gap has passed since its last activity. Its chunk is those filtered messages, valid and of the channel. |
| Scheduler.CloseThreadsLoop | src/buffer/messageBuffer.ts:158-177 | Walking the map and deleting closed threads mid-iteration gives the same chunks and remaining threads as the thread pass. |
| Scheduler.Evaluated | src/buffer/messageBuffer.ts:111-180 | Evaluating a channel's buffer does not touch its counter or its last evaluation time. |
| Scheduler.ConversationChunksValid | src/buffer/messageBuffer.ts:111-180 | Every chunk `getConversationChunks` emits holds at least 2 messages, none excluded. Its start and end times are its first and last message's timestamps. It belongs to the channel. |
| Scheduler.ConversationChunksStore | src/buffer/messageBuffer.ts:141-177 | Only the evaluated channel changes, and it holds the evaluated buffer. Its main ends empty exactly when it was empty or the final run closes: at least 2 messages, and more than the gap since its last one. Clearing drops excluded messages and earlier runs too. |
| Scheduler.MainChunksRepeat | src/buffer/messageBuffer.ts:141-154 | When the final run does not close, main is kept, so the next evaluation emits the same main chunks again. |
| Scheduler.MarkEvaluatedEffect | src/buffer/messageBuffer.ts:195-199 | `markChannelEvaluated` zeroes the counter, stamps the time and changes no other channel. |
| Scheduler.DrainChannelsEffect | src/buffer/messageBuffer.ts:186-190 | Draining a list of channels zeroes each listed channel's counter, even when it gave no chunk, and leaves every unlisted channel exactly as it was. |
| Scheduler.DrainChannelsValid | src/buffer/messageBuffer.ts:186-190 | Every chunk a drain emits is valid and belongs to a listed channel. |
| Scheduler.DrainEffect | src/buffer/messageBuffer.ts:182-193 | `getAllPendingChunks` zeroes the counter of every due channel and leaves channels that were not due untouched. It emits only valid chunks of due channels. |
| Segmenter.Runs | src/buffer/messageBuffer.ts:118-138 | There are no runs exactly when there are no filtered messages. |
| Segmenter.RunsIsGapSplit | src/buffer/messageBuffer.ts:118-138 | The runs concatenate to the filtered sequence and none is empty. Consecutive messages inside a run are at most the gap apart. Each run starts more than the gap after the previous one ends. |
| Segmenter.RunsUnique | src/buffer/messageBuffer.ts:118-138 | Any split with those properties is the runs, so they are cut exactly at the gaps. |
| Segmenter.RunsCover | src/buffer/messageBuffer.ts:118-138 | The runs concatenate to the filtered sequence and the last run is non-empty. |
| Segmenter.ClosedChunks | src/buffer/messageBuffer.ts:125-133 | Each chunk from a closed run holds at least 2 messages of one run and takes its time range from its ends. |
| Segmenter.SegmentMainLoop | src/buffer/messageBuffer.ts:116-155 | The loop with its current run gives exactly the chunks and the clearing decision of the segmentation. |
| Segmenter.ClearsIff | src/buffer/messageBuffer.ts:140-154 | Main is cleared iff there are at least 2 filtered messages, the final run has at least 2, and more than the gap has passed since the last filtered message. |
| Segmenter.MainChunksValid | src/buffer/messageBuffer.ts:116-150 | Every main chunk has at least 2 filtered messages, at most the gap apart, with the time range of its ends. |
| Segmenter.MainChunksInOrder | src/buffer/messageBuffer.ts:116-150 | The main chunks' messages, chunk after chunk, are a subsequence of the filtered sequence. |
| Privacy.CodeLength | src/privacy/filter.ts:23-25 | The greedy fence match: zero exactly when no two non-overlapping fences exist. Otherwise at least 6 units, from the first fence through the end of the last, covering every fence. |
| Privacy.AnyKeyword | src/privacy/filter.ts:16-20 | The keyword scan fires exactly when the lowered text contains some keyword. |
| Privacy.ExclusionRules | src/privacy/filter.ts:7-36 | Excluded iff one of four rules fires: the lowered text starts with the marker; it contains a keyword; twice the code length exceeds the length; or the length is below 10. |
| Privacy.ExclusionDependsOnTextOnly | src/privacy/filter.ts:7-36 | Two messages with the same text get the same decision. |
| Privacy.LockedExcluded | src/privacy/filter.ts:8-13 | With the lock emoji as marker, a message that opens with the emoji is excluded. |
| Privacy.EmptyKeywordExcludesAll | src/privacy/filter.ts:16-20 | An empty keyword in the list excludes every message. |
| Privacy.TenUnitsIsLongEnough | src/privacy/filter.ts:31-33 | A 10-unit text without the off-record marker, without a blocked keyword and with code at most half its length is kept, under any keyword list: the length rule is strict. |
| Privacy.Filter | src/privacy/filter.ts:41-43 | `filterMessages` keeps exactly the messages that are not excluded, and nothing else. |
| Privacy.FilterAppend | src/privacy/filter.ts:41-43 | Filtering commutes with concatenation, so relative order is preserved. |
| Privacy.FilterKeepsClean | src/privacy/filter.ts:41-43 | Filtering leaves a sequence unchanged iff none of its messages is excluded. |
| Privacy.FilterIdempotent | src/privacy/filter.ts:41-43 | Filtering twice is filtering once. |
| Detector.Unwrap | src/detector/contentDetector.ts:60 | Stripping a leading `[` and a trailing `]` removes at most one unit from each end, and nothing when neither end matches. |
| Detector.UnwrapWrapped | src/detector/contentDetector.ts:60 | A wrapped text is unwrapped to its body. |
| Detector.FindSep | src/detector/contentDetector.ts:61 | The separator search returns the leftmost match of `/",\s*"/` from a position, or `None` when there is none. |
| Detector.CleanAll | src/detector/contentDetector.ts:62-63 | The quotes that survive the map and the filter are non-empty and trimmed. |
| Detector.KeyQuotes | src/detector/contentDetector.ts:57-63 | Every key quote is non-empty and trimmed. |
| Detector.KeyQuotesRoundTrip | src/detector/contentDetector.ts:57-63 | Quotes written as an array literal of strings are read back unchanged. |
| Detector.StepEffect | src/detector/contentDetector.ts:46-64 | One line sets the field of the tag it starts with (value trimmed; strength also lowered) and leaves the others. |
| Detector.TagsDisjoint | src/detector/contentDetector.ts:47-56 | No line starts with two of the five tags, so the order of the tests only matters through the tags' prefixes. |
| Detector.ScanLastWins | src/detector/contentDetector.ts:46-65 | Each field holds the value of the last line carrying its tag. |
| Detector.ParseResponse | src/detector/contentDetector.ts:35-78 | The answer `NONE` yields nothing. A result carries the chunk's channel and messages, a non-empty topic, strength and reason, and a non-empty reasoning. |
| Detector.ParseResponseIff | src/detector/contentDetector.ts:35-78 | A result exists iff the trimmed answer is not `NONE`, the last topic, strength and reason lines have non-empty values, and some key-quotes line exists. Its fields are those last values, with the stock reasoning when none was given. |
| Detector.AnswerRoundTrip | src/detector/contentDetector.ts:35-78 | An answer laid out one field per line parses back field for field: strength lowered, an empty reasoning replaced by the stock one. |
| Drafts.FindMarker | src/drafts/draftGenerator.ts:24-25 | The first case-insensitive occurrence of a marker from a position, or `None` when there is none. |
| Drafts.XStop | src/drafts/draftGenerator.ts:24 | The lazy LinkedIn body stops at the first `X:` from its start, or at the end. |
| Drafts.ParseDrafts | src/drafts/draftGenerator.ts:23-35 | The result is null iff the response lacks a case-insensitive `LINKEDIN:` or lacks `X:`. Both drafts are trimmed. |
| Drafts.ParseDraftsReference | src/drafts/draftGenerator.ts:23-35 | LinkedIn draft: the trimmed text after the first `LINKEDIN:` up to the next `X:` or the end. X draft: the trimmed text after the first `X:` to the end. |
| Drafts.LinkedInHasNoX | src/drafts/draftGenerator.ts:24-32 | The LinkedIn draft never contains `x:` in any case. |
| Drafts.RenderRoundTrip | src/drafts/draftGenerator.ts:23-35 | Drafts laid out after their markers parse back unchanged, when both are trimmed and the LinkedIn post has no `X:`. |
| Delivery.RemoveFirst | src/delivery/slackDelivery.ts:13 | `replace('.', '')` removes one dot when there is one, and only that unit. |
| Delivery.RemoveFirstOf | src/delivery/slackDelivery.ts:13 | Only the first dot goes; every later dot stays. |
| Delivery.MessageLink | src/delivery/slackDelivery.ts:8-15 | The link is empty exactly when the workspace domain is; otherwise its length is the parts' lengths less the removed dot. |
| Delivery.LinkOfTimestamp | src/delivery/slackDelivery.ts:12-14 | A non-empty link is `https://` + domain + `.slack.com/archives/` + channel + `/p` + the timestamp without its first dot. |
| Delivery.Rank | src/index.ts:92-95 | A strength has a rank exactly when it is `low`, `medium` or `high`, and the rank is 1 to 3. |
| Delivery.MinStrength | src/config.ts:12 | The threshold is the environment value, or `medium` when unset or empty. |
| Delivery.SkippedIff | src/index.ts:92-98 | Among the three names, an opportunity is skipped exactly for (low, medium), (low, high) and (medium, high); a name outside the three, against one of them, never skips. |
| Delivery.DefaultThreshold | src/index.ts:92-98 | With the default threshold only `low` opportunities are skipped. |
| Delivery.SkippedMonotone | src/index.ts:95 | A stronger opportunity is never skipped when a weaker one is posted. |
| Delivery.TopicHeadSpelled | src/delivery/slackDelivery.ts:40 | The topic heading's units spell `*`, the light-bulb emoji and ` Topic:* `. |
| Delivery.LinkedInHeadingSpelled | src/delivery/slackDelivery.ts:72 | The LinkedIn heading's units spell `*`, the link emoji and ` LinkedIn Draft:*` plus a line feed. |
| Delivery.XHeadingSpelled | src/delivery/slackDelivery.ts:80 | The X heading's units spell `*`, the bird emoji and ` X/Twitter Draft:*` plus a line feed. |
| Delivery.DraftText | src/delivery/slackDelivery.ts:67-81 | A draft section is its heading, then a fence, the draft, and a closing fence. |
| Delivery.PostBlocks | src/delivery/slackDelivery.ts:20-152 | A suggestion is 11 blocks. Only blocks 6 and 7 have ids, `linkedin_draft` and `x_draft`, and carry the draft sections. Block 1 is the topic line. |
| Delivery.FindBlock | src/index.ts:312 | `find` returns the first block with the id, or none when no block has it. |
| Delivery.FenceSpan | src/index.ts:315 | The lazy fence match runs from the first fence to the next fence at least three units on. There is no match exactly when no two non-overlapping fences exist. |
| Delivery.ExtractDraft | src/index.ts:311-319 | `extractDraft` returns a trimmed text. It is empty when no block has the id, when the first such block has no text, or when that text has no fence pair. |
| Delivery.DraftTextSpan | src/index.ts:315-316 | In a draft section whose draft has no backtick, the match spans exactly the draft. |
| Delivery.PostedDrafts | src/index.ts:180-181 | The edit dialog opens with the posted drafts, trimmed, whenever they contain no backtick. |
| Delivery.UpdateDrafts | src/index.ts:261-281 | The edit keeps the number of blocks and every block id. |
| Delivery.UpdateKeepsOthers | src/index.ts:280 | Blocks other than the draft sections come through an edit unchanged. |
| Delivery.EditRoundTrip | src/index.ts:261-281 | After an edit, `extractDraft` reads back each edited draft, trimmed, when the message has its section and the draft has no backtick. |
| Delivery.LineEnd | src/index.ts:336 | `(.*)` stops at the first line terminator or the end, and matches none. |
| Delivery.TopicOf | src/index.ts:333-338 | The topic read back has no line terminator. It is `Unknown Topic` when there is no second block, it has no text, or the heading is not in it. |
| Delivery.PostedTopic | src/index.ts:333-338 | The feedback dialog reads the posted topic up to its first line terminator: the whole topic when it is one line. |
| Delivery.EditKeepsTopic | src/index.ts:333-338 | Editing the drafts does not change the topic that is read back. |
| Feedback.AddFeedback | src/feedback/feedbackManager.ts:49-52 | `addFeedback` puts the entry at the end and keeps the history before it. |
| Feedback.SortNewestFirst | src/feedback/feedbackManager.ts:55-56 | The sort keeps the length and leaves no entry older than a later one. |
| Feedback.SortPermutes | src/feedback/feedbackManager.ts:55-56 | The sort only reorders: same multiset of entries. |
| Feedback.SortStable | src/feedback/feedbackManager.ts:56 | Entries with equal timestamps keep their relative order. |
| Feedback.RecentFeedback | src/feedback/feedbackManager.ts:54-58 | `getRecentFeedback(limit)` leaves the stored history a newest-first permutation of itself. It lists that history's first `limit` entries; a negative limit counts from the end, as `slice` does. |
| Feedback.RecentFeedbackDefault | src/feedback/feedbackManager.ts:54-58 | `getRecentFeedback()` with its default limit lists the twenty newest entries, or all when fewer, and none left out is newer than one listed. |
| Feedback.RecentFeedbackStable | src/feedback/feedbackManager.ts:54-58 | Both the listing and the history left behind keep equal-time entries in their original order. |
| Feedback.Negatives | src/feedback/feedbackManager.ts:61 | Only dismissals with a reason or a comment contribute. |
| Feedback.CountReasons | src/feedback/feedbackManager.ts:65-70 | The reason map's count for a reason is its number of mentions among the contributing entries. |
| Feedback.SummaryLine | src/feedback/feedbackManager.ts:60-88 | Line `i` is the `i`-th distinct reason with its positive total count, or a comment line after all reason lines. |
| Feedback.SummaryCounts | src/feedback/feedbackManager.ts:72-77 | Every reason line carries its reason's total count, which is positive. |
| Feedback.SummaryComplete | src/feedback/feedbackManager.ts:65-77 | Every reason some contributing entry gives has its line. |
| Feedback.SummaryOrdered | src/feedback/feedbackManager.ts:72-85 | Reason lines come before comment lines and name no reason twice. They follow the order of first mention. |
| Feedback.SummaryTail | src/feedback/feedbackManager.ts:79-85 | The summary ends with one comment line per entry of the last five commented dismissals, in history order. |
| Feedback.SummaryRemarks | src/feedback/feedbackManager.ts:79-85 | At most five comment lines, from the most recent commented dismissals, oldest first, after every reason line. |
| Feedback.SummaryIgnores | src/feedback/feedbackManager.ts:61 | Feedback that is not a dismissal with a reason or a comment leaves the summary unchanged. |
| Feedback.RenderLine | src/feedback/feedbackManager.ts:75-83 | A reason line reads `User dislikes: ` then the reason. A comment line reads `User comment on "` then the topic, and ends with a quote. |
| Feedback.DislikeCount | src/feedback/feedbackManager.ts:75 | The digits before ` times)` on a reason line read back as the count. |

## Left out

- Slack transport and UI: the Bolt app, its handlers and modals, the
  `chat.*` and `views.*` calls, and the user and channel name caches. They
  are network I/O; only the block texts the handlers write and read are
  modelled.
- The interval timer and the asynchronous orchestration of `processBuffer`.
  One drain is modelled as a sequential step.
- Scheduler.Drain: one drain reads one instant `now`. The source calls
  `Date.now()` afresh for each channel's due check and again for the main
  and thread closure checks (buffer/messageBuffer.ts:83, :93, :142, :163),
  so a slow drain can see slightly later times than the model does.
- Scheduler.IsDueIff: the source divides the millisecond difference by
  60000 in floating point before comparing it with the gap in minutes. The
  model compares the difference with `gap * 60000` exactly, ignoring
  floating-point rounding.
- Messages.GapMs: same exactness assumption for the closure checks
  (`>` against `gap * 60000`).
- Scheduler.IsDueIff: the threshold and the gap are integers. `parseInt`
  can give `NaN` for `EVALUATION_THRESHOLD` or `CONVERSATION_GAP_MINUTES`
  (config.ts:32-33). Then every `>=` test at buffer/messageBuffer.ts:75,
  :84 and :94 against it is false. A `NaN` threshold never makes a channel
  due by count; a `NaN` gap never makes one due by idleness. The model does
  not cover either case.
- Messages.GapMs: with a `NaN` gap the closure tests (`>` against the gap)
  are false as well, so the source never splits main into runs, never
  clears it and never closes a thread. The model's integer gap does not
  cover that.
- Delivery.SkippedIff: a strength and a threshold that are both keys
  inherited from `Object.prototype` (`constructor`, `toString`,
  `__proto__`, ...) read a function or an object on both sides of `<`.
  These are converted to strings and compared as text, so for example
  strength `constructor` against threshold `toString` skips in the source.
  The model never skips a pair outside the three names. That string
  comparison depends on the engine's function source text.
- BufferStore.AddMessageBounded: `maxMessages` is a `nat`. `parseInt` can
  give `NaN` or a negative number (config.ts:31). Then `length > NaN` is
  always false, so the source never evicts. The model does not cover that.
- `minMessagesForChunk` (config.ts:34) is never read by the source. The
  model uses the literal 2, as the code does.
- `lastEvaluationTime` and a new thread's initial `lastActivity` come from
  `new Date()`. They are the `now` parameter here.
- Privacy.ShouldExclude: lower-casing is one unit at a time, so the lowered
  text always has the input's length. The real `toLowerCase` can lengthen a
  text: "İ" lowers to two units. So "İİİİİ" (5 units) is kept by the source
  (lowered length 10) but excluded by the model (5 < 10). A lowering that
  changes the units next to a fence or a keyword is covered only through
  the abstract `lower`.
- Full Unicode case mapping and a general regular-expression engine. Each
  pattern the code uses is written out as a scanning function.
- The language-model providers and factory, and the provider calls in
  `detectContentOpportunity` and `generateDrafts`. These are foreign SDK
  calls; their answers are the inputs of `ParseResponse` and `ParseDrafts`.
- Prompt-template file reads and `{{...}}` substitution, including the
  feedback summary's insertion into the prompt. These are file I/O.
- Locale time formatting (`toLocaleTimeString`) in the conversation
  transcript and in the context block. `Delivery.PostBlocks` leaves the
  context and button texts out of `text.text`, where the handlers never
  look.
- Delivery.PostBlocks: the strength section (emoji map, upper-cased
  strength, reasoning) is carried as already-rendered text.
- Detector.ParseResponse: `strength` is lowered through the same abstract
  `lower`, and, as in the source, never checked against the three names.
- Feedback persistence: loading and saving the JSON history file and the
  data directory. Only the in-memory history is modelled.
- Feedback.RecentFeedback: timestamps are integers. The source parses a
  timestamp string with `new Date(...)`. An unparsable string gives `NaN`,
  which makes the comparator inconsistent; that is not modelled. A
  fractional or non-numeric `limit` is not modelled either.
- Configuration loading from the environment and the `process.exit`
  validation. Every setting is a parameter.
- `formatMessages`, the transcript given to the model, is presentation
  only.
