# tweet-search, modelled in Dafny

`tweet_search.py` is a command-line tool that collects tweets matching a set of
search keywords through the Twitter v1.1 search API. Each run works in an output
directory that holds three files:

- `config.json`: the search condition and the id of the newest tweet seen (the cursor);
- `tweets.jsonl`: the raw log, one fetched item per line;
- `filtered.txt`: one printed line per item that passes four regular-expression filters.

A run proceeds in five steps:

1. It merges the command-line arguments with `config.json`.
2. It pages backwards through the search results with `max_id` and `since_id`.
3. It expands every `https://t.co/...` short link in the fetched texts.
4. It sorts the new items by id.
5. It appends them to the raw log, writes the filtered lines (appending, or
   rebuilding the file from the whole raw log) and saves the new cursor.

The model follows the program's structure, one module per concern:

| module | file | models |
|---|---|---|
| `Tweets` | tweets.dfy | the fetched item, `str()` of an id, `sorted(..., key=id)` |
| `Config` | config.dfy | the merge of arguments, saved configuration and defaults at the start of `main` |
| `Query` | query.dfy | `request_url` and the parameters `search_tweets` passes to it |
| `Redirect` | redirect.dfy | `URL_PATTERN` and `resolve_redirects` |
| `Search` | search.dfy | `search_tweets`, the paging loop |
| `Filter` | filter.dfy | `filter_tweets` |
| `Persist` | persist.dfy | `print_tweet` and what `main` writes after the fetch |
| `TweetSearch` | main.dfy | `main` end to end |
| `Seqs`, `Wrappers` | seqs.dfy, wrappers.dfy | sequence facts; `Option` and `Result` |

The two loops of the program are imperative methods:

- `Search.SearchTweets` is the paging loop. `Search.Iterate` is one pass of it,
  `Search.OnResponse` what an answer does, and `Search.AppendStatuses` the inner loop.
- `Redirect.ResolveRedirects` is the link loop, with `Redirect.OnMatch` as its body.

Each method is proved against a specification function: `Search.Collected`,
`Search.Requests` and `Search.Done` for the paging loop, `Redirect.Expand` for the
link loop. The properties of the program are proved as lemmas about those
functions. Everything else is pure and is modelled as functions.

The environment is turned into parameters:

- The search API is a finite sequence of answers (`Search.Response`), consumed
  one per request. An answer is either `Failed` (the request or the decoding
  raised) or a list of statuses.
- The redirect lookup is a function from a token to an optional address.
- The regular-expression engine is `Filter.Matcher`, a function that says whether
  a pattern is found in a string.
- `quote_plus` is the `quote` parameter of `Query.RequestUrl`.
- The date conversion of `print_tweet` is the `stamp` parameter.
- The files are values (`Persist.Store`).

## Model

| member | source | states |
|---|---|---|
| Tweets.NatDigits | tweet_search.py:263 | the digits of a natural number are non-empty, all decimal digits, and start with '0' only for 0 |
| Tweets.Decimal | tweet_search.py:263 | `str(id)` is non-empty, and it is all digits exactly when the id is non-negative |
| Tweets.NatDigitsRoundTrip | tweet_search.py:263 | reading back the digits of n gives n |
| Tweets.DecimalRoundTrip | tweet_search.py:263 | `str(id)` is a valid decimal rendering and reads back to the id, so the permalink identifies the item |
| Tweets.Insert | tweet_search.py:104-111 | inserting one item adds exactly that item to the multiset and one to the length |
| Tweets.InsertMembers | tweet_search.py:104-111 | the members after an insertion are the old members plus the new item |
| Tweets.InsertSorted | tweet_search.py:104-111 | inserting into an id-sorted list keeps it sorted |
| Tweets.SortById | tweet_search.py:104-111 | the result of the sort is ordered by id, is a permutation of the input, and has its length |
| Tweets.SortSortedIsIdentity | tweet_search.py:121 | sorting an already sorted list returns it unchanged, so the second sort in `main` changes nothing |
| Tweets.SortedLastIsMax | tweet_search.py:123 | the last item of an id-sorted list carries the largest id |
| Tweets.SortByIdLastIsMax | tweet_search.py:104-111 | after sorting, the last item is one of the inputs and no input has a larger id |
| Config.Merge | tweet_search.py:44-89 | fails exactly when there is no config.json and no keywords; each field is the argument if given, else the saved value, else the built-in default; the cursor survives exactly when the keywords were omitted or unchanged; the old keywords are remembered exactly when a saved file exists and non-empty keywords differ from it |
| Config.Configure | tweet_search.py:44-97 | as written: a run aborts exactly when there is neither a config.json nor keywords (KeywordsRequired), or when the keywords change from non-empty to different non-empty ones (the KeyError of the change message); otherwise it yields the merged configuration |
| Config.KeywordChangeCrashes | tweet_search.py:93-97 | concrete run: saved "foo" with cursor 500, new keywords "bar"; the code as written aborts, while the intended behaviour goes on with the cursor cleared |
| Config.ConfigureIntended | tweet_search.py:44-97 | with the keyword-change message fixed: the only abort before fetching is missing keywords with no config.json, and otherwise the run uses the merged configuration |
| Config.IntendedKeywordChangeResetsCursor | tweet_search.py:49-54 | with the message fixed, changing the keywords uses the new keywords and drops the cursor, so the next fetch starts over |
| Config.ResumeWithoutArgs | tweet_search.py:46-66 | a run with no arguments resumes the saved configuration unchanged, cursor included |
| Config.FirstRunDefaults | tweet_search.py:67-80 | a first run uses '' and '(?!)' as accept and reject patterns, './auth.json', and no cursor |
| Query.Kept | tweet_search.py:157-158 | the comprehension's `if v` never adds parameters |
| Query.KeptMembers | tweet_search.py:157-158 | a parameter is kept exactly when it is given and its value is truthy: not '', 0 or None |
| Query.Fields | tweet_search.py:157-158 | field i is `key=quote_plus(str(value))` of parameter i |
| Query.Join | tweet_search.py:157 | definition, no contract of its own: `'&'.join(parts)`; its inverse is proved in `Query.SplitJoin` |
| Query.SplitJoin | tweet_search.py:157 | splitting `'&'.join(parts)` at '&' gives the parts back when none of them contains '&' |
| Query.RequestUrl | tweet_search.py:156-159 | definition, no contract of its own: `request_url`, SEARCH_API, '?', then the '&'-joined fields of the kept parameters; its meaning is stated by `Query.QuerySplitsIntoFields` and `Query.SearchUrlShape` |
| Query.QuerySplitsIntoFields | tweet_search.py:156-159 | since `quote_plus` escapes '&', the query string of a URL with at least one kept parameter splits back into exactly the `key=quote_plus(str(value))` fields of the truthy parameters, in their order |
| Query.SearchKept | tweet_search.py:173-180 | the parameters sent: q only for non-empty keywords, then count=100, include_entities=false, tweet_mode=extended, then max_id and since_id only when set and non-zero |
| Query.SearchUrlShape | tweet_search.py:156-180 | the full URL of a search request: SEARCH_API?, then `q=` only for non-empty keywords, `count=100`, `include_entities=false`, `tweet_mode=extended`, then `max_id=` and `since_id=` with the decimal id only when set and non-zero, joined by '&' |
| Query.SearchKeys | tweet_search.py:173-180 | the keys of a search URL in order: q when keywords are non-empty, count, include_entities, tweet_mode, then max_id and since_id only when set and non-zero |
| Query.NoMaxIdField | tweet_search.py:171-180 | a request without a max_id bound carries no max_id field |
| Redirect.AlnumRunIsMaximal | tweet_search.py:213 | the run counted by `[0-9a-zA-Z]+` holds only ASCII letters and digits, and the next character is not one |
| Redirect.MatchAt | tweet_search.py:213 | a match starting at i spans at least the fourteen characters of the shortest token and stays inside the text |
| Redirect.MatchAtIsToken | tweet_search.py:213 | every match is a word of the pattern (the unescaped '.' matching any character but a newline), and cannot be extended |
| Redirect.MatchAtIsGreedy | tweet_search.py:213 | every word of the pattern starting at i is found, and the match is at least as long: `+` is greedy |
| Redirect.NextMatch | tweet_search.py:219 | the next match lies at or after the resume point and inside the text |
| Redirect.NextMatchIsLeftmost | tweet_search.py:219 | finditer's next match is the leftmost one at or after the resume point, and no match means none starts anywhere after it |
| Redirect.OnMatch | tweet_search.py:224-233 | one loop step: a resolved match adds the text since `prev` and the address, and `prev` moves past it; a failed lookup changes nothing |
| Redirect.Expand | tweet_search.py:219-236 | definition, no contract of its own: the output for the text from a resume point on, i.e. the text up to the next match verbatim, the match's address (or the match itself when its lookup fails), then the same for the rest; `Redirect.ResolveRedirects` is proved equal to it |
| Redirect.Resolve | tweet_search.py:216-237 | definition, no contract of its own: what `resolve_redirects` returns, `Expand` from position 0; its properties are the lemmas below |
| Redirect.ResolveRedirects | tweet_search.py:216-237 | the loop returns `Resolve(text)`: the text between matches verbatim, each match replaced by its address or kept when its lookup failed |
| Redirect.UnchangedWhenNothingResolves | tweet_search.py:216-237 | when every match's replacement is the match itself, the text comes out unchanged |
| Redirect.NoMatchUnchanged | tweet_search.py:216-237 | a text with no short link is returned as it is |
| Redirect.ExpandWhenLookupsFail | tweet_search.py:219-236 | from a resume point on, when the lookup of every match finditer yields fails, the rest of the text is copied through unchanged |
| Redirect.AllFailuresUnchanged | tweet_search.py:219-237 | a text in which every lookup `resolve_redirects` makes fails (only the matches finditer yields, not starts inside an earlier match) is returned as it is |
| Redirect.ExpandSkipsPlainPrefix | tweet_search.py:228 | text before the first match is copied through verbatim |
| Redirect.Example | tweet_search.py:216-237 | "see https://t.co/abc now" with the token resolving to a page becomes "see " + the page + " now" |
| Search.ToTweet | tweet_search.py:200-205 | definition, no contract of its own: the item kept for a status, with id, created_at and user name copied and the full text passed through `Redirect.Resolve` |
| Search.Converted | tweet_search.py:199-205 | a page gives exactly one item per status; `Search.ConvertedAt` states which item |
| Search.Collected | tweet_search.py:162-210 | definition, no contract of its own: the list `search_tweets` returns after the given answers, every page's items in arrival order; `Search.SearchTweets` is proved to return it |
| Search.MinId | tweet_search.py:209 | definition, no contract of its own: `min(t['id'] for t in tweets)` over a non-empty list; `Search.MinIdIsMin` states that it is the minimum |
| Search.ConvertedAt | tweet_search.py:199-205 | status i of a page becomes item i, with its id, created_at and user name kept and its full text resolved |
| Search.MinIdIsMin | tweet_search.py:209 | `min(ids)` is attained by some item and no item has a smaller id |
| Search.Snoc | tweet_search.py:193-209 | one more answer: a page adds one to the page count, resets the retries, appends its items and moves max_id to min - 1; an empty or failed answer adds one retry and leaves items and max_id alone |
| Search.RequestsAt | tweet_search.py:172-180 | request k carries the keywords, since_id = the cursor, and the max_id due after the first k answers |
| Search.RunningAt | tweet_search.py:193-208 | the loop had not stopped after any of the answers before its last one |
| Search.AppendStatuses | tweet_search.py:199-205 | the inner loop appends exactly the page's converted items, in order |
| Search.Iterate | tweet_search.py:172-209 | one pass of the loop: the request due after the earlier answers is issued, and counters, items and max_id become those of the answers up to this one; it breaks only after 3 misses in a row or at the page limit, and otherwise no prefix so far has stopped the loop |
| Search.OnResponse | tweet_search.py:181-209 | the loop body: counters, items and max_id become those of the answers seen plus this one; it breaks after 3 misses in a row or at the page limit |
| Search.SearchTweets | tweet_search.py:162-210 | one request per answer consumed, each the one due after the earlier answers; the loop ends at the first point where it is done, or when the answers run out; it returns the items of the pages in arrival order and never more than max_pages pages when max_pages > 0 |
| Search.RetryRepeatsRequest | tweet_search.py:193-197 | after an empty or failed answer the same request is sent again |
| Search.CollectedAppend | tweet_search.py:199-205 | the items collected over two stretches of answers are the items of the first, then those of the second |
| Search.MaxIdBelowCollected | tweet_search.py:209 | max_id lies strictly below every id collected, so while max_id is non-zero no item is asked for again (for max_id 0 see `Search.ZeroMaxIdIsDropped`) |
| Search.ZeroMaxIdIsDropped | tweet_search.py:157-158 | when the smallest id collected is 1, max_id becomes 0, which the `if v` of `request_url` drops, so the next request has the URL of the first request and asks for the newest items again |
| Search.MaxIdNonIncreasing | tweet_search.py:209 | once set, max_id never increases from one request to a later one |
| Search.FirstRequestHasNoMaxId | tweet_search.py:171-180 | the first request has no max_id field |
| Search.ThreeMissesStop | tweet_search.py:193-197 | three misses in a row stop the loop, which has collected nothing |
| Search.StopPointIsUnique | tweet_search.py:172-208 | the number of requests is determined by the answers: there is only one first stopping point |
| Filter.FilterTweets | tweet_search.py:240-258 | the filter keeps at most the input, only items that pass all four tests, and never an item more often than the input has it |
| Filter.FilterMembers | tweet_search.py:251-258 | an item is kept exactly when it is in the input and passes all four tests |
| Filter.FilterAppend | tweet_search.py:251-258 | filtering distributes over concatenation, so the input order is kept |
| Filter.FilterIdempotent | tweet_search.py:251-258 | filtering a filtered list changes nothing |
| Filter.FilterKeepsAllPassing | tweet_search.py:251-258 | when every item passes, nothing is dropped |
| Filter.RejectAllTextYieldsNothing | tweet_search.py:254 | a text reject pattern found in every string empties the result |
| Filter.DefaultPolicyKeepsAll | tweet_search.py:70-77 | with the default patterns ('' accepts everything, '(?!)' rejects nothing) every item passes |
| Persist.FormatTweet | tweet_search.py:261-267 | definition, no contract of its own: the line `print_tweet` prints, the permalink with the decimal id, the stamped time, the user and the flattened text joined by single spaces; its shape is stated by `Persist.LineStartsWithPermalink` and `Persist.LineEndsWithText` |
| Persist.Flatten | tweet_search.py:266 | definition, no contract of its own: tabs, then newlines, replaced by spaces; `Persist.FlattenShape` states the result |
| Persist.ReplaceChar | tweet_search.py:266 | `str.replace` of one character keeps the length and replaces exactly that character |
| Persist.FlattenShape | tweet_search.py:266 | the flattened text has the text's length and no tab or newline: those become spaces, other characters stay |
| Persist.LineStartsWithPermalink | tweet_search.py:262-263 | a printed line starts with the status permalink, whose id reads back, followed by a space |
| Persist.LineEndsWithText | tweet_search.py:262-266 | a printed line ends with the flattened text |
| Persist.Lines | tweet_search.py:144-146 | one printed line per filtered item, in order |
| Persist.LinesAppend | tweet_search.py:144-146 | printing two lists prints the lines of the first, then those of the second |
| Persist.PlanWrites | tweet_search.py:104-153 | `main` returns without writing exactly when nothing was fetched and no stored log is re-read; otherwise the new raw items are the fetched ones sorted by id, filtered.txt is opened with 'w' in recreate mode and 'a' otherwise, the filtered items are those of the re-read log plus the new ones, and only the cursor of the configuration changes |
| Persist.PlanCursor | tweet_search.py:122-133 | the saved cursor is the largest fetched id, or the last stored id when nothing new came |
| Persist.NothingNewChangesNothing | tweet_search.py:119-120 | a run that fetches nothing outside recreate mode leaves all three files alone |
| Persist.RawLogGrowsByFetched | tweet_search.py:135-142 | the raw log keeps its old lines and gains exactly the fetched items, sorted by id |
| Persist.RawLogStaysSorted | tweet_search.py:104-142 | a sorted raw log stays sorted when every fetched id is above every stored one |
| Persist.CursorAdvances | tweet_search.py:123-133 | when the fetched ids lie above the old cursor, the cursor strictly increases |
| Persist.RecreateRefiltersRawLog | tweet_search.py:112-145 | in recreate mode filtered.txt becomes the printed lines of the whole new raw log, refiltered |
| Persist.AppendKeepsFilteredInStep | tweet_search.py:126-145 | in append mode, if filtered.txt was the filtered raw log before and the patterns are the same, it still is afterwards |
| Persist.RecreateIsIdempotent | tweet_search.py:112-153 | rebuilding filtered.txt twice with nothing new gives the same files |
| TweetSearch.Run | tweet_search.py:30-153 | with the keyword-change message corrected, a configuration error (only: no config.json and no keywords) aborts before any request and leaves the files untouched; otherwise the requests are exactly those `search_tweets` issues from the configured keywords and cursor, each with the max_id due after the earlier answers; at most one is sent per answer; the fetch runs on until the first point where the loop stops or the answers run out; and the files become what the plan writes for the items collected |

## Left out

- HTTP, OAuth and JSON decoding of API answers are left out. A request that raises, or an answer without `statuses`, is the `Failed` answer.
- The wait after a failed request (`time.sleep(900)`), the SIGALRM and request timeouts, and every console message are left out. They do not change what is collected or written.
- `while True` has no bound in the source. Here the loop also ends when the finite sequence of answers runs out (`Search.Stop.SourceExhausted`). This bound belongs to the model, not to the program.
- The redirect lookup is a fixed function of the token. A lookup whose answer changes over a run is not captured. `unquote_plus` of the final address is part of that function.
- The regular-expression engine and `re.compile` errors (`re.error` on an invalid pattern) are left out. Patterns are only passed to `Filter.Matcher`.
- `quote_plus` is an abstract parameter, and only the structure of the URL is modelled.
- `dateutil` parsing, the nine-hour shift and `strftime` are abstracted into `stamp`.
- Reading and writing the files is left out. Writing an item to tweets.jsonl and reading it back is assumed to give the item back. A missing tweets.jsonl is an empty raw log.
- A config.json that lacks a key (a `KeyError` at lines 49-66) is not modelled. The saved configuration always has every field.
- Opening the credentials file (line 101) is left out. Its failure is an I/O error outside the model.
- `KeyboardInterrupt` and the argument parsing by plac are left out. The arguments arrive as `Config.Args`.
- Tweets.SortById: the sort is proved ordered and a permutation, but its stability (equal ids keep their order) is not proved. Ids are unique in practice.
- Persist.PlanWrites: the item written to tweets.jsonl is the in-memory item, and its JSON form is not modelled.
- The plac help texts give '.+' and '^$' as the default patterns. The code uses '' and '(?!)', and the model follows the code.

## Findings

| source | as written | input that shows it | evidently intended | confidence | as-written member | corrected member |
|---|---|---|---|---|---|---|
| tweet_search.py:93-97 | the keyword-change message reads `config['search_condition']`, a key the freshly built dict never has, so `main` raises `KeyError` before fetching whenever the saved keywords are non-empty and different non-empty keywords are given | config.json with keywords "foo" and cursor 500, run with keywords "bar" | print the old keywords and go on with a full re-fetch: new keywords, no cursor | not executed | Config.KeywordChangeCrashes | Config.IntendedKeywordChangeResetsCursor |

`Config.Configure` and `Config.KeywordChangeCrashes` keep the behaviour as
written. `Config.ConfigureIntended` is the corrected function, and
`TweetSearch.Run` uses it. Its properties are its own contract and
`Config.IntendedKeywordChangeResetsCursor`.
