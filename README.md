# Twitter bot core, modelled in Dafny

This project models the decision logic of `TwitterBot`, a bot that posts
developer-oriented tweets and likes and retweets popular posts on its
topics. It covers four parts:

- **Formatting** (`format_tweet`). The bot collapses all whitespace to
  single spaces, puts a space before every `#` not preceded by `&`, and
  cuts text longer than `tweet_length` to `tweet_length - 3` characters
  followed by `...`. Module `Formatter`, file `formatter.dfy`.
- **Content generation**. The hour-of-day bucket and the eight fallback
  templates of `generate_mock_content`, with the topic, hashtag and hook
  lists. `generate_content` uses the stripped answer of the
  text-generation service, or that fallback when the call fails. Module
  `Content`, file `content.dfy`.
- **Posting** (`post_tweet`). Up to `max_retries` attempts. Each attempt
  generates text and skips when it is empty, then formats and submits it.
  The first response that carries data appends one record to
  `post_history`. Every exception costs a pause. Module `Posting` holds
  the specification; the loop itself is `Bot.TwitterBot.PostTweet`.
- **Engagement** (`engage_with_community`). For each topic in order, the
  bot searches and visits the results in order. It likes, retweets and
  records every result that is not yet a key of `engagement_history` and
  whose like count is strictly above `min_engagement_followers`. The first
  exception ends the whole scan. Module `Engagement` holds the
  specification; the nested loops are `Bot.TwitterBot.EngageWithCommunity`.

`Bot.TwitterBot` is the bot object. Its post history is a `seq` field that
`PostTweet` appends to. Its engagement history is a `map` field that
`EngageWithCommunity` inserts into. Both methods are proved against the
specification functions of their modules.

External services are oracles given to the model as parameters:

- the text-generation answer (`Content.Completion`);
- the random choices and the hour (`Content.MockPick`);
- the text each posting attempt receives, the result of `create_tweet`
  and the clock (`Posting.Attempt`);
- the search results and the outcomes of `like` and `retweet`
  (`Engagement.SearchOutcome`, `Engagement.Candidate`).

Where the documentation and the code disagree, the model follows the
code:

- `format_tweet` is not idempotent. Formatting `a#b` gives `a #b`, and
  formatting that again gives `a  #b` (`Formatter.FormatTweetNotIdempotent`).
  Only the whitespace step is idempotent (`Formatter.CollapseIdempotent`).
- The length bound holds only for `tweet_length >= 3`. For smaller limits,
  Python's negative slice `[:tweet_length-3]` counts from the end and the
  result can exceed the limit (`Formatter.FormatTweetShortLimit`).
- Engagement is not deduplicated across restarts. `save_state` writes the
  history as JSON, whose object keys are strings, and `load_state` reads
  them back as strings. `tweet.id` is an integer, so
  `tweet.id in self.engagement_history` never matches a loaded entry
  (`Engagement.LoadedEntriesNeverMatch`, `Engagement.ReloadedIdIsEngagedAgain`).
- `time.sleep(60 / engagement_count)` raises when `engagement_count <= 0`
  (division by zero, or a negative duration). The outer handler catches
  it, so such a count ends the scan right after its first recorded entry
  (`Engagement.EngageZeroCount`).

## Model

| member | source | states |
|---|---|---|
| Formatter.FormatTweet | twitter_bot.py:245-261 | the three steps in order. `FormatTweetBounded`, `FormatTweetUntruncated`, `FormatTweetTruncated`, `FormatTweetShortLimit` and `FormatTweetNotIdempotent` specify it |
| Formatter.Words | twitter_bot.py:249 | `str.split()`: every piece is non-empty and whitespace-free. `WordsOfSpaces`, `WordsOfWord`, `WordsLead` and `WordsSplit` pin it down as the maximal runs, in order |
| Formatter.WordsOfSpaces | twitter_bot.py:249 | a text made only of whitespace has no words |
| Formatter.WordsSpaces | twitter_bot.py:249 | whitespace in front of a text adds no word and changes none |
| Formatter.WordsOfWord | twitter_bot.py:249 | a non-empty whitespace-free text is one word |
| Formatter.WordsLead | twitter_bot.py:249 | a word followed by whitespace or by nothing is split off whole |
| Formatter.WordsSplit | twitter_bot.py:249 | a whitespace run always separates words: the words of `a + run + b` are those of `a` followed by those of `b` |
| Formatter.WordsVisible | twitter_bot.py:249 | the words, put end to end, are exactly the visible characters of the text, in order |
| Formatter.Collapse | twitter_bot.py:249 | `' '.join(content.split())`. `CollapseSpec`, `CollapseSplit`, `CollapseIdempotent` and `NormalizedFixed` specify it |
| Formatter.JoinAppend | twitter_bot.py:249 | `' '.join` of two non-empty word lists puts exactly one space between them |
| Formatter.CollapseSpec | twitter_bot.py:249 | the result has no whitespace except single inner spaces, and the visible characters are unchanged and in order |
| Formatter.CollapseSplit | twitter_bot.py:249 | a whitespace run between two texts that both have visible characters becomes exactly one space |
| Formatter.NormalizedFixed | twitter_bot.py:249 | a text that is already normalized passes through step one unchanged |
| Formatter.CollapseIdempotent | twitter_bot.py:249 | collapsing whitespace twice gives the same text as once |
| Formatter.SpaceHashtags | twitter_bot.py:252 | `re.sub(r'(?<!&)#', ' #', content)`, with the lookbehind read on the input. `SpaceHashtagsLength`, `UnspaceSpaceHashtags` and `HashesPreceded` specify it |
| Formatter.SpaceHashtagsLength | twitter_bot.py:252 | the substitution grows the text by exactly one character per `#` not preceded by `&` |
| Formatter.UnspaceSpaceHashtags | twitter_bot.py:252 | deleting each space directly before a `#` recovers the input: the substitution only inserts those spaces |
| Formatter.HashesPreceded | twitter_bot.py:252 | after the substitution every `#` comes after a space or an `&` |
| Formatter.SliceTo | twitter_bot.py:256 | Python's `s[:k]` is a prefix of `s`: length `k` for `0 <= k <= len(s)`, `max(0, len(s)+k)` for negative `k` |
| Formatter.Truncate | twitter_bot.py:255-256 | text within the limit is unchanged; longer text becomes its first `limit-3` characters plus `...`, exactly `limit` long when `limit >= 3` |
| Formatter.FormatTweetBounded | twitter_bot.py:249-256 | with `tweet_length >= 3` the formatted tweet is at most `tweet_length` long |
| Formatter.FormatTweetUntruncated | twitter_bot.py:249-255 | text that fits after the first two steps is not truncated, and removing the inserted spaces gives the normalized text with all visible characters of the input |
| Formatter.FormatTweetTruncated | twitter_bot.py:252-256 | text that is too long becomes the first `limit-3` characters of the spaced text plus `...`, exactly `limit` long |
| Formatter.FormatTweetShortLimit | twitter_bot.py:255-256 | with limit 0, the text `ab` formats to `...`, longer than the limit |
| Formatter.FormatTweetNotIdempotent | twitter_bot.py:249-252 | `a#b` formats to `a #b`, and that formats to `a  #b` |
| Formatter.Strip | twitter_bot.py:234 | `str.strip()`. `StripSpec` and `StripSlice` specify it |
| Formatter.StripSpec | twitter_bot.py:234 | `strip()` keeps the visible characters, leaves no whitespace at either end, and gives the empty string exactly when the text is all whitespace |
| Formatter.StripSlice | twitter_bot.py:234 | the stripped text is a contiguous slice of the input with only whitespace before and after it |
| Content.DayPartOf | twitter_bot.py:192-198 | the bucket for an hour. `DayPartRanges` and `DayPartTable` specify it |
| Content.DayPartRanges | twitter_bot.py:192-198 | 5-11 is morning, 12-16 is afternoon, any other hour is evening (each in both directions) |
| Content.DayPartTable | twitter_bot.py:192-198 | the bucket of each of the 24 hours of the day, as a table |
| Content.IntrosSize | twitter_bot.py:106-122 | each bucket has three intro phrases |
| Content.Template | twitter_bot.py:200-209 | the eight templates, filled in. `TemplateShape` specifies them |
| Content.TemplateShape | twitter_bot.py:200-209 | every template contains its topic and hook and ends with an empty line and the hashtags; templates 0 and 3 open with the intro |
| Content.MockContent | twitter_bot.py:177-211 | `generate_mock_content` for given random choices and hour. `MockContentShape` specifies it |
| Content.MockContentShape | twitter_bot.py:177-211 | the fallback text contains the chosen topic and hook, ends with the three chosen hashtags, and templates 0 and 3 open with an intro of the hour's bucket |
| Content.GenerateContent | twitter_bot.py:213-240 | the stripped answer, or the fallback when the call failed. `GenerateContentSpec` specifies it |
| Content.GenerateContentSpec | twitter_bot.py:213-240 | a failed generation call falls back to a non-empty template text; an answer is used stripped, empty exactly when it was all whitespace |
| Posting.Try | twitter_bot.py:266-287 | one pass of the loop body. `TryOutcome` specifies it |
| Posting.TryOutcome | twitter_bot.py:266-287 | an attempt posts exactly when the text is non-empty and the response has data, with that id, the formatted text and the clock; it pauses exactly when the text is non-empty and the submission raised |
| Posting.Results | twitter_bot.py:265-287 | one result per attempt |
| Posting.ResultsAt | twitter_bot.py:265-287 | result `i` is the outcome of attempt `i` |
| Posting.CountRaised | twitter_bot.py:285-287 | the pause count is at most the number of attempts |
| Posting.CountRaisedSnoc | twitter_bot.py:285-287 | each further attempt adds a pause exactly when it raised |
| Posting.Run | twitter_bot.py:265-289 | a round posts exactly when some attempt posts; the record is the first such attempt's and it stops there; otherwise it uses every attempt; it pauses once per raising attempt used |
| Posting.RunPostsAt | twitter_bot.py:274-283 | a round whose first post is attempt `i` uses `i+1` attempts and returns that record |
| Posting.FirstPostedUnique | twitter_bot.py:283 | only one attempt can be the first to post |
| Posting.RunExhausts | twitter_bot.py:265-289 | a round where no attempt posts uses all attempts and returns no record |
| Posting.RunPostsIffSomeAttempt | twitter_bot.py:265-289 | over the first `n` attempts a round posts exactly when one of them would |
| Posting.NoRetriesNoPost | twitter_bot.py:265 | `range(max_retries)` is empty for `max_retries <= 0`: no attempt, no post, no pause |
| Posting.QuietFailures | twitter_bot.py:268-274 | attempts that only skip (empty text or no data) post nothing and never pause |
| Posting.QuietRun | twitter_bot.py:268-274 | a round of skipped results uses all attempts, posts nothing and never pauses |
| Engagement.LoadHistory | twitter_bot.py:157-158 | the history read from the state file has exactly the file's keys, each as a string key, with the file's entries |
| Engagement.Visit | twitter_bot.py:306-327 | an item already in the history, or at or below the threshold, changes nothing |
| Engagement.VisitQualifying | twitter_bot.py:313-327 | a qualifying item is liked; it gets a `like_retweet` entry exactly when like and retweet both return; a failure leaves it unrecorded and ends the scan; a recorded entry ends the scan exactly when `engagement_count <= 0` |
| Engagement.ScanItems | twitter_bot.py:306-327 | the inner loop. `ScanItemsGrows`, `ScanItemsComplete`, `ScanItemsAppend`, `ScanItemsFirstQualifying` and `ScanItemsNoneQualify` specify it |
| Engagement.ScanTopics | twitter_bot.py:295-330 | the outer loop. `ScanTopicsGrows`, `ScanTopicsComplete` and `ScanTopicsInOrder` specify it |
| Engagement.Engage | twitter_bot.py:291-330 | the whole scan from a given history. `EngageGrows`, `EngageComplete`, `EngageInOrder`, `EngageZeroCount`, `EngageZeroCountFirst`, `RescanIsQuiet` and `LoadedEntriesNeverMatch` specify it |
| Engagement.AboveIds | twitter_bot.py:306-313 | exactly the ids of one search's results whose like count is above the threshold |
| Engagement.AboveAll | twitter_bot.py:295-313 | exactly the ids above the threshold over all searches that returned results |
| Engagement.GrowsRefl | twitter_bot.py:308-320 | the growth invariant holds from a scan state to itself |
| Engagement.GrowsTrans | twitter_bot.py:308-320 | the growth invariant composes over successive steps |
| Engagement.VisitGrows | twitter_bot.py:308-320 | one visit keeps old entries, likes only new ids and adds only `like_retweet` entries for ids it liked |
| Engagement.ScanItemsGrows | twitter_bot.py:306-320 | the growth invariant holds over the results of one search |
| Engagement.ScanTopicsGrows | twitter_bot.py:295-320 | the growth invariant holds over all searches |
| Engagement.EngageGrows | twitter_bot.py:295-320 | a scan keeps every old entry unchanged, never likes an id already recorded, likes each id at most once, adds only `like_retweet` entries under ids it liked, and likes only ids above the threshold |
| Engagement.ScanTopicsAbove | twitter_bot.py:306-313 | every id a scan likes is among the searched ids above the threshold |
| Engagement.ScanItemsAbove | twitter_bot.py:306-313 | every id liked while visiting one search is among its ids above the threshold |
| Engagement.ScanItemsPrefix | twitter_bot.py:306-320 | visiting results only appends to the list of liked ids |
| Engagement.ScanTopicsPrefix | twitter_bot.py:295-320 | scanning topics only appends to the list of liked ids |
| Engagement.ScanItemsComplete | twitter_bot.py:306-320 | with no failures, one search's qualifying ids all become keys and nothing else does |
| Engagement.ScanTopicsComplete | twitter_bot.py:295-320 | with no failures, every search's qualifying ids become keys and nothing else does |
| Engagement.EngageComplete | twitter_bot.py:295-320 | with no failures and `engagement_count > 0`, the new keys are exactly the old keys plus the searched ids above the threshold |
| Engagement.ScanItemsSettled | twitter_bot.py:308-309 | results whose qualifying ids are all recorded change nothing |
| Engagement.ScanTopicsSettled | twitter_bot.py:308-309 | searches whose qualifying ids are all recorded change nothing |
| Engagement.RescanIsQuiet | twitter_bot.py:308-309 | scanning the same results again on the resulting history likes and records nothing |
| Engagement.Reached | twitter_bot.py:295-306 | the results of each topic's search, topic by topic in list order, up to the first search that raised |
| Engagement.ScanItemsAppend | twitter_bot.py:306 | visiting two lists of results one after the other equals visiting their concatenation |
| Engagement.ScanTopicsInOrder | twitter_bot.py:295-306 | the scan over the topics is one scan, in order, over the reached results, which also stops when a search raised |
| Engagement.EngageInOrder | twitter_bot.py:295-330 | the scan visits the reached results in topic order and list order within a topic |
| Engagement.ScanItemsNoneQualify | twitter_bot.py:308-313 | results of which none qualifies change nothing |
| Engagement.ScanItemsFirstQualifying | twitter_bot.py:306-327 | with `engagement_count <= 0`, visiting results comes down to visiting the first qualifying one |
| Engagement.EngageZeroCountFirst | twitter_bot.py:306-330 | with `engagement_count <= 0`, the first reached result that qualifies is the one item liked. It is recorded exactly when like and retweet both return, and the scan ends there |
| Engagement.EngageNoneQualify | twitter_bot.py:306-313 | when no reached result qualifies, nothing is liked or recorded |
| Engagement.ScanItemsZeroCount | twitter_bot.py:317-330 | with `engagement_count <= 0`, visiting one search's results changes nothing, or likes exactly one item and stops |
| Engagement.ScanTopicsZeroCount | twitter_bot.py:317-330 | with `engagement_count <= 0`, a scan likes at most one item, and the history changes only if it likes one item and stops |
| Engagement.EngageZeroCount | twitter_bot.py:317-330 | with `engagement_count <= 0` a scan likes at most one item, adds at most that one entry, and stops if it added one |
| Engagement.VisitAlike | twitter_bot.py:308-320 | a visit does the same on two histories with the same searched-id entries |
| Engagement.ScanItemsAlike | twitter_bot.py:306-320 | visiting results does the same on two histories with the same searched-id entries |
| Engagement.ScanTopicsAlike | twitter_bot.py:295-320 | scanning topics does the same on two histories with the same searched-id entries |
| Engagement.LoadedEntriesNeverMatch | twitter_bot.py:308-309 | a scan from a history loaded from the state file likes, stops and records exactly as a scan from an empty history, and keeps the loaded entries |
| Engagement.ReloadedIdIsEngagedAgain | twitter_bot.py:308-320 | with `"7"` loaded from the state file, a search returning tweet 7 with 150 likes has it liked and recorded again |
| Engagement.ThresholdIsStrict | twitter_bot.py:313 | with threshold 100, results with 50, 150 and exactly 100 likes: only the 150 one is engaged |
| Engagement.ZeroCountStopsAfterFirst | twitter_bot.py:317-330 | with `engagement_count` 0, the first qualifying result is recorded and the second topic is never reached |
| Engagement.FailedRetweetKeepsEarlierEntries | twitter_bot.py:314-330 | a retweet that raises leaves that item unrecorded, keeps the earlier entry and ends the scan |
| Bot.TwitterBot.constructor | twitter_bot.py:36-39 | both histories start empty, then take the state file's `post_history` and its `engagement_history` (under string keys) when they are present |
| Bot.TwitterBot.PostTweet | twitter_bot.py:263-289 | posts exactly when one of the first `max(0, max_retries)` attempts would post; appends exactly that record and otherwise nothing; pauses once per raising attempt; with `max_retries <= 0` nothing happens |
| Bot.TwitterBot.EngageWithCommunity | twitter_bot.py:291-330 | the new history and the liked ids are those of `Engagement.Engage`, with one search per topic; old entries are unchanged; every new key is a liked tweet id with a `like_retweet` entry; no liked id was already recorded |

## Left out

- Client setup, authentication and the prompt text (twitter_bot.py:124-139, 220-224) talk to external services. Their answers are oracle parameters.
- The choice of `content_type` (twitter_bot.py:179, 216) only feeds the prompt, so it is not modelled.
- `load_state` file reading and `save_state` writing (twitter_bot.py:152-175) are I/O. The constructor receives the state file's contents, or `None` when there is no file or it could not be read. JSON writes integer tweet ids as string keys, and `Engagement.Key` keeps loaded string keys apart from searched ids. So a restart forgets which tweets were engaged with (`Engagement.LoadedEntriesNeverMatch`).
- `save_state` is left out; it catches all its own errors.
- `Engagement.Visit`: a result without `id` or `public_metrics['like_count']` would raise `KeyError`/`AttributeError` and end the scan. The model assumes every result has both fields.
- `Posting.Try`: a response whose data has no `id` key raises inside the loop. The model counts it as `SubmitRaised`.
- Sleep durations, the scheduler and `main` (twitter_bot.py:287, 327, 332-355) are left out. Only the fact that a pause raises is modelled.
- `engagement_ratio`, `max_hashtags`, `content_temperature` and `daily_post_count` (twitter_bot.py:143-147) are never used by the modelled code. `daily_post_count` is in `Bot.Config` as a value only.
- Integer conversion of the environment settings is left out (twitter_bot.py:141-150). `Bot.Defaults` holds their default values.
- Logging is left out.
- `format_tweet` has an exception handler (twitter_bot.py:259-261). It cannot fire for a string argument, so it is not modelled.
- `Posting.Attempt`: the text each attempt receives is an oracle. `Content.GenerateContent` models how that text is made, but the two are not connected, so the posting proofs hold for any text.
- The test scripts (`test_*.py`) are not part of this model.
