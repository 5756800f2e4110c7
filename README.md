# Tweet search-and-reply bot: a Dafny model of its bookkeeping

The bot searches Twitter for tweets that contain a band's name. It replies to
each qualifying tweet with a song plug and remembers what it did in one
dictionary, `DATABASE`. That dictionary holds:

- the last-seen pointer (`date_of_last_tweet`: a datetime and a tweet id);
- the list of users already replied to (`users_we_tweeted_to`);
- the last reply sent (`last_tweet_we_tweeted`);
- one record per tweet replied to, stored under the tweet's integer id.

This project models the four pieces of `tweet_search_and_reply_music.py` that
work on that dictionary, and the loop that runs them for each found tweet:

- `pytext.dfy`, module `PyText`: the Python string built-ins the code relies on.
  These are `str.lower()`, `str.startswith()`, the substring test `w in s`,
  the string ordering `<` and `str()` of an int.
- `mentions.dfy`, module `Mentions`: `remove_username_from_tweet`, which is
  `re.sub("@\w+\s", "", text)`. It is written out as a left-to-right scan with
  Python 2's ASCII meaning of `\w` and `\s`.
- `bot.dfy`, module `Bot`: the dictionary (`State`, and the class `Database`
  that `update_database` changes in place). It also holds the filter
  `tweet_qualifies_for_reply`, the composer `generate_reply_obj` (a
  specification function plus the loop method) and the updater
  `update_database` (the function `Updated`, and the method
  `Database.UpdateDatabase`). The per-tweet loop of `get_tweets_and_reply` is
  here too: the function `Run` and the method `GetTweetsAndReply`.
- `properties.dfy`, module `BotProperties`: what whole runs keep, two
  scenarios, the repeat check across two replies, and the duplicate test as
  the source writes it.

The contents of the `common` module are the parameter `Config`. These are
`NEGATIVE_WORDS`, `SONG_REPLIES`, `NON_SONG_REPLIES` and `LATEST_SONG_NAME`.
Each call to `random.choice(xs)` becomes `xs[draw % |xs|]`, where `draw` is a
parameter (`Draw`). `ChoiceReachesEvery` shows that every element can be
drawn. Timestamps are the strings the code compares (`str(created_at)`).

Three points about the code itself shape the model:

- The duplicate lookup in `tweet_qualifies_for_reply` never succeeds (see Findings). A tweet already
  recorded is still turned away from a valid dictionary, by the "already
  replied to" test, as long as tweet ids identify their authors.
- `users_we_tweeted_to` is a list, appended to without a check. The model
  keeps a list and proves that a run never puts a user in it twice.
- The stored reply loses every `@word` followed by a whitespace character,
  anywhere in the text, in one pass; not only the handle in front.

## Model

| member | source | states |
|---|---|---|
| `Bot.HasKey` | tweet_search_and_reply_music.py:223 | `DATABASE.has_key(k)` over the keys this code writes: a string key is one of the three state names, all starting with a lower-case letter, and an integer key is a recorded id. `Bot.DedupGuardNeverFires` states what follows for `str(twt.id)` |
| `Bot.HasNegativeWord` | tweet_search_and_reply_music.py:229-233 | true exactly when some negative word, lowered, occurs in the lowered text |
| `Bot.QualifiesAsWritten` | tweet_search_and_reply_music.py:207-239 | the filter as the code runs it, with the string-key duplicate test and its raising branch; its only exception would be `AttributeError`, and an acceptance means the author is not listed and no negative word occurs. `Bot.QualifiesAsWrittenIff` states its full meaning |
| `Bot.DedupGuardNeverFires` | tweet_search_and_reply_music.py:223 | `has_key(str(twt.id))` is false in every dictionary this code writes (the three string keys and integer ids), so the branch with the `.formatted` typo never runs |
| `Bot.QualifiesAsWrittenIff` | tweet_search_and_reply_music.py:215-239 | in every dictionary this code writes, the filter as written returns without raising, and accepts exactly when the retweet test (when retweets are disallowed), the negative-word test and the listed-user test all stay silent |
| `Bot.Qualifies` | tweet_search_and_reply_music.py:215-239 | the filter with the duplicate test corrected to the integer key: an accepted tweet is neither recorded nor by a listed user. `Bot.QualifiesIff` states its full meaning |
| `Bot.QualifiesIff` | tweet_search_and_reply_music.py:215-239 | a tweet qualifies iff none of the four tests fires: the retweet prefix (when retweets are disallowed), an already recorded id, any negative word in any case, an author already replied to |
| `Bot.RejectsRetweetMarker` | tweet_search_and_reply_music.py:215-220 | with retweets disallowed, any text whose first two letters are r and t, in either case, is rejected, not only real retweets |
| `Bot.RejectsRecorded` | tweet_search_and_reply_music.py:222-226 | with the lookup corrected to the integer key, a tweet whose id is recorded is rejected |
| `Bot.RejectsNegativeWord` | tweet_search_and_reply_music.py:228-233 | a tweet holding a negative word, case-insensitively, is rejected whoever wrote it |
| `Bot.RejectsContacted` | tweet_search_and_reply_music.py:235-238 | a tweet by a user already replied to is rejected whatever its text |
| `Bot.MentionPrefix` | tweet_search_and_reply_music.py:254 | the handle is `@`, then exactly the screen name, then one space |
| `Bot.Budget` | tweet_search_and_reply_music.py:258 | a song reply must stay strictly below 140 less the handle's length, that is 138 less the screen name's length |
| `Bot.UsableReplies` | tweet_search_and_reply_music.py:257-259 | a reply is kept exactly when it is a song reply strictly shorter than the budget; no more replies come out than go in |
| `Bot.CollectUsableReplies` | tweet_search_and_reply_music.py:252-259 | the loop builds exactly the list of song replies that fit the budget |
| `Bot.Choice` | tweet_search_and_reply_music.py:266 | `random.choice` returns an element of the list |
| `Bot.ChoiceReachesEvery` | tweet_search_and_reply_music.py:266 | every element of the list is the outcome of some draw |
| `Bot.ComposeReply` | tweet_search_and_reply_music.py:242-280 | a composed reply starts with `"@<name> "` and carries the tweet's id and author unchanged; the only failure is `IndexError`, when the non-song list is empty |
| `Bot.GenerateReplyObj` | tweet_search_and_reply_music.py:242-280 | the imperative composer returns what the specification `ComposeReply` allows for the same draws |
| `Bot.SongNamed` | tweet_search_and_reply_music.py:263 | the unlowered song name occurs in the lowered text, which needs a text at least as long as the name. `BotProperties.CapitalisedSongNameNeverMatches` states when it cannot hold |
| `Bot.SongPick` | tweet_search_and_reply_music.py:261-266 | the pick before the repeat check is `":)"` or one of the song replies. `Bot.SongPickCases` and `Bot.SongPickReachesEveryFit` state which |
| `Bot.SongPickCases` | tweet_search_and_reply_music.py:257-266 | before the redraw: `":)"` when no song reply fits or the song is named; otherwise a song reply with which the whole message is under 140 characters |
| `Bot.SongPickReachesEveryFit` | tweet_search_and_reply_music.py:257-266 | when the song is not named, every song reply that fits can be picked |
| `Bot.RedrawCases` | tweet_search_and_reply_music.py:268-274 | a pick equal to the last reply is replaced by a non-song reply, or raises when there is none; any other pick is sent after the handle |
| `Bot.ReplyWithinLimit` | tweet_search_and_reply_music.py:254-274 | without a redraw, the reply to a handle of at most 135 characters is under 140 characters |
| `Bot.FallbackIgnoresLimit` | tweet_search_and_reply_music.py:269-270 | the redrawn non-song reply is not measured: a long one takes the message to 140 characters or more |
| `Bot.RedrawAvoidsRepeat` | tweet_search_and_reply_music.py:268-270 | when the redraw happens and the last reply is not itself a non-song reply, the new text differs from it |
| `Bot.Updated` | tweet_search_and_reply_music.py:185-204 | the stored date becomes the greater string of the old date and the tweet's; the id moves with it; the author is appended with earlier users kept; the last reply is the reply with mentions removed; the record at the tweet's id holds the author, text, geo, id, creation time and stored reply; no other record changes |
| `Bot.UpdatePreservesValid` | tweet_search_and_reply_music.py:194-203 | recording a reply to a user not yet listed keeps the list duplicate-free and every record stored under its id with a listed author |
| `Bot.Database.constructor` | tweet_search_and_reply_music.py:151-155 | a database holding the contents of a loaded snapshot |
| `Bot.Database.UpdateDatabase` | tweet_search_and_reply_music.py:170-204 | the in-place update leaves the dictionary equal to `Updated` of its old contents; the date never decreases and the author is appended |
| `Bot.Step` | tweet_search_and_reply_music.py:51-61 | one tweet through the filter as written, the composer and the updater leaves the users list as it was or with the author appended |
| `Bot.Run` | tweet_search_and_reply_music.py:51-61 | the fold over the found tweets, stopping at the first exception: a run adds at most one user per tweet; that it removes none, and keeps earlier users in place, is `BotProperties.RunOnlyAdds` |
| `Bot.GetTweetsAndReply` | tweet_search_and_reply_music.py:46-61 | the loop over the found tweets leaves the dictionary, and ends, as the fold `Run` does: filter as written, skip or compose then update, stop at the first exception |
| `BotProperties.StepPreservesValid` | tweet_search_and_reply_music.py:51-61 | one tweet through filter, composer and updater keeps the state valid |
| `BotProperties.RunPreservesValid` | tweet_search_and_reply_music.py:51-61 | over a whole run the users list stays duplicate-free, although it is appended to without a check, because the filter turns listed users away first |
| `BotProperties.RunDateNeverDecreases` | tweet_search_and_reply_music.py:185-188 | over a whole run the stored date string never decreases |
| `BotProperties.RunOnlyAdds` | tweet_search_and_reply_music.py:194-203 | a run keeps every earlier user in place and every recorded id recorded; a record changes only when a tweet of the run carries its id |
| `BotProperties.RunKeepsRecords` | tweet_search_and_reply_music.py:51-61 | from a valid dictionary, when tweet ids identify their authors, a run leaves every earlier record unchanged, although the duplicate test as written never fires |
| `BotProperties.RunSkipsRetweet` | tweet_search_and_reply_music.py:53-54 | a retweet with retweets disallowed is skipped and the state is unchanged |
| `BotProperties.RunAnswersFreshTweet` | tweet_search_and_reply_music.py:51-61 | a clean tweet by a new user gets a record under its id, its author is appended, and the last-seen pointer (`date_of_last_tweet`) moves to it when its date string is greater |
| `BotProperties.RepeatedPickIsRedrawn` | tweet_search_and_reply_music.py:192-204 | a reply to a word-character handle is stored without its prefix, so a mention-free text picked again next time is redrawn |
| `BotProperties.MentionInReplyEscapesRepeatCheck` | tweet_search_and_reply_music.py:192 | a reply text that starts with a mention is stored without it, so the same text picked next time is not recognised as a repeat |
| `BotProperties.CapitalisedSongNameNeverMatches` | tweet_search_and_reply_music.py:263 | the song name is not lowered: a name with a capital letter is never found in the lowered text |
| `BotProperties.AsWrittenAgreesOnValidStates` | tweet_search_and_reply_music.py:215-239 | in a valid state, the filter as written decides every tweet as the corrected filter does |
| `BotProperties.AsWrittenAcceptsRecordedTweet` | tweet_search_and_reply_music.py:223 | a state with a record whose author is not listed: the filter as written accepts that tweet again, the corrected one rejects it |
| `Mentions.MatchLength` | tweet_search_and_reply_music.py:78 | a positive result is a match of `@\w+\s` at the start; any match has exactly that length |
| `Mentions.RemoveUsernameFromTweet` | tweet_search_and_reply_music.py:69-78 | removing mentions never makes the text longer |
| `Mentions.RemoveKeepsTextWithoutAt` | tweet_search_and_reply_music.py:78 | text before the first `@` is kept unchanged |
| `Mentions.RemoveIsIdentityWithoutAt` | tweet_search_and_reply_music.py:78 | a text without `@` comes back unchanged |
| `Mentions.RemoveLeadingMention` | tweet_search_and_reply_music.py:69-78 | `"@<word> "` in front of a text is removed and the rest is processed as on its own |
| `Mentions.RemoveExample` | tweet_search_and_reply_music.py:71 | `"@mike hello"` becomes `"hello"` |
| `Mentions.RemoveIsNotIdempotent` | tweet_search_and_reply_music.py:78 | one pass can leave a mention behind: `"@@b c ..."` becomes `"@c ..."`, which still matches |
| `PyText.Lower` | tweet_search_and_reply_music.py:215 | `str.lower()` keeps the length and lowers each ASCII capital, leaving every other character as it is |
| `PyText.StartsWith` | tweet_search_and_reply_music.py:218 | `s.startswith(p)` holds exactly when `s` is `p` followed by some rest |
| `PyText.Contains` | tweet_search_and_reply_music.py:230 | `w in s` for strings: only a word no longer than the text can occur in it. `PyText.ContainsIff` states its meaning |
| `PyText.ContainsIff` | tweet_search_and_reply_music.py:230 | the substring test holds exactly when the word occurs at some position |
| `PyText.UpperNeverInLowered` | tweet_search_and_reply_music.py:263 | a string with a capital letter never occurs in a lowered string |
| `PyText.LexLess` | tweet_search_and_reply_music.py:186 | Python's `<` on strings, code point by code point with a proper prefix first: nothing is less than the empty string. The lemmas below state that it is a strict total order |
| `PyText.LexLessTransitive` | tweet_search_and_reply_music.py:186 | Python's string `<` is transitive |
| `PyText.LexLessTotal` | tweet_search_and_reply_music.py:186 | of two different strings, one is less than the other |
| `PyText.LexLessEqTransitive` | tweet_search_and_reply_music.py:186 | string `<=` is transitive, which makes the stored date monotone over a run |
| `PyText.IntToStr` | tweet_search_and_reply_music.py:188 | `str()` of an int is non-empty and starts with a digit or a minus sign. `PyText.NatToStrRoundTrip` and `PyText.IntToStrInjective` state that it loses nothing |
| `PyText.NatToStrRoundTrip` | tweet_search_and_reply_music.py:188 | the decimal string of a natural number reads back as that number |
| `PyText.IntToStrInjective` | tweet_search_and_reply_music.py:188 | `str()` of two different ids gives two different strings |

## Left out

- Twitter API calls are not modelled: `login_to_api`, the search, `send_friend_request`, `tweet_reply` and `get_last_tweet_data`. They are network calls into tweepy. The search result is the parameter `tweets`, and the follow request and the reply post change nothing in the model.
- The login check at the start of `get_tweets_and_reply` is not modelled. It depends only on the API.
- `open_database`, `close_database` and `print_database_data_to_screen` are pickle file I/O. A loaded snapshot is the constructor's argument. The defaults come from `datetime.now()` and an API call, so they are not modelled either.
- When a run ends with an exception, the source never reaches `close_database`, so the file keeps its old contents. The model returns the in-memory state reached, and says how the run ended (`Aborted`).
- Logging, `print` and the `UnicodeEncodeError` handler around logging are output only.
- `random.choice` is a draw parameter. Its probability distribution is not modelled. `GetTweetsAndReply` takes one pair of draws per tweet.
- Datetimes are not modelled. The code compares `str(...)` of them, so timestamps are strings. The stored `datetime` and record `created_at` are their strings too.
- `str.lower()` is modelled for the ASCII letters only. Python 2's `unicode.lower()` also lowers other scripts.
- `twt.geo` is an opaque optional string.
- The first-run `tweet_id` is an int, and `update_database` later stores `str(twt.id)`. Both are kept apart as `PyScalar` values.
- Bot.HasKey: `State` holds only the three string keys and integer record ids, the keys this code writes. A loaded snapshot holding a string tweet id as a key, the one input on which the `.formatted` branch would raise, is outside the model; `Bot.DedupGuardNeverFires` and `Bot.QualifiesAsWrittenIff` hold for every dictionary this code writes.
- Bot.Run / Bot.GetTweetsAndReply: the loop runs the filter as written, so from a dictionary whose records name unlisted authors (one this code never writes) a recorded tweet is answered again and its record overwritten; `RunOnlyAdds` states only what holds then, and `RunKeepsRecords` states the rest under that assumption.
- Mentions.RemoveUsernameFromTweet: its own contract only bounds the length. Its meaning is stated by `MatchLength` and the lemmas beside it.

## Findings

| source | as written | input that shows it | evidently intended | confidence | as-written member | corrected member |
|---|---|---|---|---|---|---|
| tweet_search_and_reply_music.py:223 | the duplicate test looks up `str(twt.id)`, but :194 stores records under the integer `twt.id`. The test never fires, and its branch (:224) would raise `AttributeError` on `.formatted` | a dictionary holding a record under id 5 whose author `bob` is not in `users_we_tweeted_to`; tweet 5 by `bob` is accepted again | look up the key the records are stored under, and reject | high for the dead test; the observable effect needs a record whose author is not listed; not executed | `BotProperties.AsWrittenAcceptsRecordedTweet` | `Bot.RejectsRecorded` |

`Bot.QualifiesAsWritten` models the test as written, and the loop (`Step`,
`Run`, `GetTweetsAndReply`) runs it, as the code does. `Bot.Qualifies` is the
corrected filter, and `Bot.RejectsRecorded` proves it rejects a recorded tweet
in every state. `AsWrittenAgreesOnValidStates` proves that the two filters
decide alike on a valid dictionary when the tweet's id, if recorded, names
its author. `RunKeepsRecords` carries the consequence to whole runs: from such a
dictionary no earlier record is overwritten.
