# Instagram engagement bot — a verified model of its daily cycle

The bot (`instagram_bot.py`, class `InstagramBot`) keeps a table of the
users it has followed. Each entry maps a user id to the moment of the follow,
and the table is mirrored in the state file `followed_users.json`. Several
times a day the bot runs a daily cycle:

1. It follows eligible followers of a target account, up to the follow limit.
2. It unfollows users that did not follow back within two days, up to the
   unfollow limit.
3. It replies to the stories of followed users.
4. It answers direct messages from a trigger table.
5. It comments on the latest posts of a target account.

A randomised pause separates two phases. Each phase catches its own errors,
and a failed login skips the whole cycle.

This project models that core in Dafny:

- `Timestamps` covers the `datetime` values the table holds. It has:
  - `isoformat`, the text written to the file;
  - `fromisoformat`, the parser it is read back with;
  - the exact subtraction behind the two-day grace period.
- `FollowStore` models the table as a value. The table is a dict, whose
  iteration order matters. The module also holds the state file and
  `load_followed_users` / `save_followed_users`.
- `Triggers` does the DM matching: ASCII lower-casing, substring search and
  the first rule whose trigger matches and whose send succeeds.
- `Phases` holds one pure function per phase of the cycle, and the lemmas
  that state what each phase promises.
- `Settings` holds the configuration values the phases read.
- `InstagramBot.Bot` is the bot object. Its fields are the table and the
  file, and it has one method per phase, each with the loops of the source.
  Every method is proved to compute exactly the matching `Phases` function.

Everything the platform client, the clock and the random generator
contribute comes in as parameters. These are:

- the follower list and how each follow ends;
- `datetime.now()` readings;
- friendship checks;
- the random draws of response texts;
- whether each send succeeds.

## Model

| member | source | states |
|---|---|---|
| Timestamps.Format | instagram_bot.py:46 | `isoformat` text is 19 characters, or 26 with microseconds, with `T` at position 10 |
| Timestamps.Parse | instagram_bot.py:37 | a text that parses has one of the two lengths `isoformat` writes; out-of-range fields are rejected |
| Timestamps.ParseDigits | instagram_bot.py:37 | a digit run parses exactly when every character is a digit, and its value fits the width |
| Timestamps.ParsePad | instagram_bot.py:37-46 | a zero-padded field parses back to its number |
| Timestamps.TripleRoundTrip | instagram_bot.py:37-46 | the date part and the time part parse back to their three fields |
| Timestamps.ParseFormat | instagram_bot.py:37-46 | `fromisoformat(d.isoformat()) == d` for every valid date-time, microseconds included |
| Timestamps.DaysBeforeYearFormula | instagram_bot.py:147 | the year-by-year day count equals the closed form `datetime` uses for ordinals |
| Timestamps.Micros | instagram_bot.py:147 | a date-time lies at or after the start of its date's day and before the next day's start, on the microsecond scale `now - follow_time` is measured in |
| Timestamps.OldEnough | instagram_bot.py:147 | `(current_time - follow_time) >= timedelta(days=2)`, exact to the microsecond; its calendar reading is `OldEnoughByDays` |
| Timestamps.OldEnoughByDays | instagram_bot.py:147 | a follow three or more dates back is always old enough, one from the previous date or later never is, and one two dates back is exactly when its time of day is not later than now's |
| Triggers.LowerChar | instagram_bot.py:218 | an upper-case ASCII letter becomes the same letter in lower case; every other character is kept; no upper-case letter comes out |
| Triggers.Lower | instagram_bot.py:218 | `.lower()` keeps the length, leaves no upper-case ASCII letter, and works character by character |
| Triggers.LowerKeeps | instagram_bot.py:218 | lower-case text is left as it is |
| Triggers.LowerIdempotent | instagram_bot.py:218 | lower-casing twice is lower-casing once |
| Triggers.WindowLower | instagram_bot.py:218-222 | a window of the lower-cased message is the lower-cased window |
| Triggers.LowerEquals | instagram_bot.py:218-222 | a lower-case text equals a lower-cased window exactly when the window is that text up to case |
| Triggers.Contains | instagram_bot.py:222 | `trigger in last_message`, Python's substring test; its meaning is `ContainsAt` |
| Triggers.ContainsAt | instagram_bot.py:222 | `trigger in last_message` holds exactly when the trigger occurs at some position (both directions) |
| Triggers.TriggerMatch | instagram_bot.py:218-222 | a lower-case trigger matches exactly when it occurs in the message ignoring ASCII case (both directions) |
| Triggers.UpperTriggerNeverMatches | instagram_bot.py:218-222 | a trigger with an upper-case ASCII letter never matches any message |
| Triggers.FirstAnswer | instagram_bot.py:221-230 | the rule whose response is sent: the first that matches and whose send succeeds; its contract is `FirstAnswerSpec` |
| Triggers.FirstAnswerSpec | instagram_bot.py:221-230 | the rule chosen matches and is sent, no earlier rule both matches and is sent, and none is chosen exactly when no rule qualifies |
| Settings.DefaultTriggersLowerCase | config.py:40-50 | every shipped trigger is lower case, so `TriggerMatch` applies to each |
| FollowStore.Put | instagram_bot.py:120 | `followed_users[k] = v`: a new key goes last in iteration order, an existing key keeps its place; its contract is `PutSpec` |
| FollowStore.PutSpec | instagram_bot.py:120 | assignment sets the key to the new time, keeps every other entry, and keeps the order listing each key once |
| FollowStore.WithoutSpec | instagram_bot.py:164 | taking a key out of the order removes exactly that key and keeps the order duplicate-free |
| FollowStore.Delete | instagram_bot.py:164 | `del followed_users[k]`; its contract is `DeleteSpec` |
| FollowStore.DeleteSpec | instagram_bot.py:164 | `del` removes exactly that key and keeps every other entry unchanged |
| FollowStore.Texts | instagram_bot.py:46 | the dict of `isoformat` texts has the same keys as the table |
| FollowStore.Members | instagram_bot.py:46-48 | `json.dump` writes one member per key of the dict |
| FollowStore.Encode | instagram_bot.py:46-48 | the file holds one member per entry of the table |
| FollowStore.Collect | instagram_bot.py:35 | the dict `json.load` builds from the members: its key list and its value map have the same keys |
| FollowStore.CollectDistinct | instagram_bot.py:35 | the dict lists each key once |
| FollowStore.CollectKeys | instagram_bot.py:35 | the dict's keys are exactly the members' keys |
| FollowStore.CollectLast | instagram_bot.py:35 | a repeated key takes the value of its last member |
| FollowStore.CollectNew | instagram_bot.py:35 | a member with a new key adds it at the end with its value |
| FollowStore.ParseValue | instagram_bot.py:37 | `datetime.fromisoformat(v)` succeeds only on a string, and then as `Parse` says |
| FollowStore.ParseValues | instagram_bot.py:37 | the comprehension over the dict yields a table listing each key once |
| FollowStore.ParseValuesFails | instagram_bot.py:37-39 | the comprehension fails exactly when some key's value does not parse |
| FollowStore.ParseValuesStep | instagram_bot.py:37 | one more key whose value parses is added to the table parsed so far |
| FollowStore.DecodeEntries | instagram_bot.py:35-37 | a loaded table lists each key once |
| FollowStore.DecodeFails | instagram_bot.py:35-39 | loading fails exactly when the value some key ends up with does not parse; overwritten values play no part |
| FollowStore.Load | instagram_bot.py:30-40 | a missing, unreadable or unparsable file loads as the empty table |
| FollowStore.Save | instagram_bot.py:42-50 | the file after a save: the encoding, the old file, or an unreadable file; its contract is `SaveSpec` |
| FollowStore.SaveSpec | instagram_bot.py:42-50 | a successful save loads back as the table; a failed open keeps the old file; a failed write leaves a file that loads as empty |
| FollowStore.TracksLength | instagram_bot.py:46 | the order has as many keys as the dict |
| FollowStore.CollectMembers | instagram_bot.py:35-48 | reading back the members written for distinct keys gives a dict with those keys, in order, and their values |
| FollowStore.ParseRestrict | instagram_bot.py:37-46 | when each value parses to its time, the comprehension gives those keys, in order, with those times |
| FollowStore.DecodeEncode | instagram_bot.py:35-48 | loading the members written for distinct keys rebuilds those keys in order, with their times |
| FollowStore.LoadEncode | instagram_bot.py:30-48 | saving then loading gives back the same table: keys, times and iteration order |
| Phases.Take | instagram_bot.py:109 | a client asked for `n` items returns the first `min(n, available)` of them |
| Phases.Eligible | instagram_bot.py:118 | `not user.is_followed and not user.is_private`; `FollowStep` and `FollowsTable` state what it decides |
| Phases.FollowStep | instagram_bot.py:113-132 | one follow turn counts exactly when below the limit, eligible and successful; it then records the follow time and saves, and otherwise changes nothing |
| Phases.Follows | instagram_bot.py:112-132 | the follow loop keeps the table consistent |
| Phases.FollowPhase | instagram_bot.py:102-137 | `follow_users` over the first `limit + 10` followers; its contract is `FollowPhaseSpec` |
| Phases.FollowableCount | instagram_bot.py:118-122 | the number of followable candidates is at most the number of candidates |
| Phases.FollowsSaturated | instagram_bot.py:113-114 | once the counter reaches the limit, the rest of the loop does nothing |
| Phases.FollowsCount | instagram_bot.py:111-132 | the loop follows exactly `min(limit, count + followable)` users |
| Phases.FollowedInTail | instagram_bot.py:112 | a follow made for a later candidate is a follow made in the loop |
| Phases.FollowsTable | instagram_bot.py:112-132 | no key is removed; every new or changed entry is an eligible candidate's whose follow succeeded, with that time; no count means no change |
| Phases.FollowsCounterGrows | instagram_bot.py:122 | the follow counter never decreases |
| Phases.FollowsSync | instagram_bot.py:120-125 | if every save succeeds, the file is in step with the table after the loop |
| Phases.FollowPhaseSpec | instagram_bot.py:102-137 | `follow_users` follows `min(limit, followable among the first limit + 10)` users, keeps old entries, and records only followable candidates among those first `limit + 10`, with their follow times |
| Phases.Stale | instagram_bot.py:147-151 | at least two days since the follow and the friendship check reports no follow back; `SelectedSpec` states that exactly these ids are collected |
| Phases.Selected | instagram_bot.py:143-155 | the ids `unfollow_non_followers` collects; its contract is `SelectedSpec` |
| Phases.SelectedAppend | instagram_bot.py:145-155 | the selection over two runs of ids is the two selections joined |
| Phases.SelectedSpec | instagram_bot.py:143-155 | an id is selected exactly when it is in the table, at least two days old and not following back; no id twice |
| Phases.DistinctCons | instagram_bot.py:145 | a new id in front of distinct ids keeps them distinct |
| Phases.SelectedIgnoresYoung | instagram_bot.py:147-150 | the friendship check is irrelevant for entries younger than two days |
| Phases.UnfollowStep | instagram_bot.py:159-175 | one unfollow turn counts exactly when below the limit, successful and the key is present; it then deletes exactly that key and saves |
| Phases.Unfollows | instagram_bot.py:158-175 | the unfollow loop keeps the table consistent |
| Phases.UnfollowPhase | instagram_bot.py:139-180 | `unfollow_non_followers`: selection, then the bounded unfollow loop; its contract is `UnfollowPhaseSpec` |
| Phases.UnfollowableCount | instagram_bot.py:162-166 | the number of successful unfollows is at most the number of ids |
| Phases.UnfollowsSaturated | instagram_bot.py:159-160 | once the counter reaches the limit, the rest of the loop does nothing |
| Phases.UnfollowStepTable | instagram_bot.py:162-169 | one turn removes at most its own key, only when its unfollow succeeds, and one key per count |
| Phases.UnfollowsTable | instagram_bot.py:157-176 | only selected ids whose unfollow succeeded are removed, the rest keep their times, and one key goes per counted unfollow |
| Phases.DistinctTail | instagram_bot.py:158 | the rest of distinct ids is distinct and lacks the first |
| Phases.UnfollowStepKeeps | instagram_bot.py:159-166 | a turn on a present id counts it below the limit exactly when its unfollow succeeds, and keeps the other ids |
| Phases.UnfollowsCount | instagram_bot.py:157-176 | the loop unfollows exactly `min(limit, count + successes)` of distinct present ids |
| Phases.UnfollowsSync | instagram_bot.py:164-169 | if every save succeeds, the file is in step with the table after the loop |
| Phases.UnfollowPhaseSpec | instagram_bot.py:139-180 | `unfollow_non_followers` unfollows `min(limit, successes among the stale)` users, removes only stale entries, and keeps the others' times |
| Phases.Choice | instagram_bot.py:194 | `random.choice` returns an element of the table, and raises exactly on an empty table |
| Phases.Reaction | instagram_bot.py:193-203 | one reaction is sent exactly when the table is non-empty and the send succeeds, on that item with a table text |
| Phases.ReactStep | instagram_bot.py:190-203 | one turn of the story or comment loop: at the limit nothing is sent, otherwise the item's `Reaction`; `ReactStepTake` states its effect against the reference |
| Phases.Reacting | instagram_bot.py:186-203 | the bounded reaction loop; its contract is `ReactingTake` |
| Phases.Succeeding | instagram_bot.py:193-203 | the reactions the loop would send with no limit; its contract is `SucceedingSpec` |
| Phases.SucceedingSpec | instagram_bot.py:193-203 | without a limit, every reaction is to a listed item whose send succeeded, with a table text; at most as many as items; with distinct items, no item gets two |
| Phases.TakeAppend | instagram_bot.py:190 | taking past a short prefix keeps it whole |
| Phases.ReactStepTake | instagram_bot.py:190-197 | one bounded turn moves at most one reaction from the unsent to the sent part |
| Phases.ReactingTake | instagram_bot.py:186-203 | the bounded loop sends exactly the first `limit - sent` reactions the unbounded loop would send |
| Phases.ReactingAppend | instagram_bot.py:188-189 | the loop over two runs of items is the second loop started where the first ended |
| Phases.ReactingSaturated | instagram_bot.py:190-191 | once the limit is reached, nothing more is sent |
| Phases.ReactingPrefix | instagram_bot.py:186-203 | from a counter of 0 the bounded loop sends a prefix of the unbounded loop's reactions, of length `min(limit, successes)` |
| Phases.ReactionsSpec | instagram_bot.py:186-203 | exactly `min(limit, successes)` reactions, each to a listed item with a table text; with distinct items, no item gets two |
| Phases.Flatten | instagram_bot.py:188-189 | the stories in the order of the nested `for user_stories` / `for story` loops; `FlattenMembers` and `ReactingAppend` state what it covers |
| Phases.FlattenMembers | instagram_bot.py:188-189 | a story is visited exactly when it belongs to some user's stories |
| Phases.StoryPhase | instagram_bot.py:182-208 | `reply_to_stories`: one bounded loop over all stories in order; its contract is `StoryPhaseSpec` |
| Phases.StoryPhaseSpec | instagram_bot.py:182-208 | `min(limit, successes)` story replies across all users, each to a listed story with a response text; with distinct story ids, none gets two |
| Phases.CommentPhase | instagram_bot.py:237-264 | `comment_on_posts`: the bounded loop over the first 5 posts; its contract is `CommentPhaseSpec` |
| Phases.CommentPhaseSpec | instagram_bot.py:237-264 | exactly `min(limit, successes among the first 5 posts)` comments, so at most `min(limit, 5, posts)`, each on one of the first 5 posts with a template text; with distinct post ids, none gets two |
| Phases.Reply | instagram_bot.py:218-230 | a reply is sent exactly when some rule matches the lower-cased text and its send succeeds; it is the first such rule's response |
| Phases.DmStep | instagram_bot.py:217-230 | one thread of `handle_direct_messages`; its effect is stated by `DmStepAnswered` |
| Phases.DmLoop | instagram_bot.py:216-230 | the loop over the fetched threads; its contract is `DmLoopAnswered` |
| Phases.DmPhase | instagram_bot.py:210-235 | `handle_direct_messages` over the latest 20 threads; its contract is `DmPhaseSpec` |
| Phases.Answered | instagram_bot.py:216-230 | the replies read off the threads: at most one per thread |
| Phases.DmStepAnswered | instagram_bot.py:216-230 | one thread moves its reply, if any, from the replies still due to those sent; a thread with a None text ends the phase with nothing more due |
| Phases.DmLoopAnswered | instagram_bot.py:216-230 | the DM loop sends exactly `Answered`, after what was already sent |
| Phases.AnsweredComplete | instagram_bot.py:216-230 | every thread before the first text-less one whose last message has a first-match reply gets that reply |
| Phases.DmLoopShape | instagram_bot.py:213-235 | replies already sent are kept, the loop adds at most as many as there are threads, and the phase is cut short exactly when a last item has no text |
| Phases.DmHeadReply | instagram_bot.py:217-228 | the first thread gets at most one reply, and it is that thread's |
| Phases.RepliedInTail | instagram_bot.py:216 | a reply a later thread gets is one the inbox gets, if the first thread does not end the phase |
| Phases.DmLoopReplies | instagram_bot.py:216-230 | every reply added is the first-match reply of a thread preceding every text-less thread |
| Phases.DistinctStep | instagram_bot.py:216-228 | after one thread, the ids replied to and the remaining thread ids stay distinct |
| Phases.DistinctSkip | instagram_bot.py:216 | a thread without a reply drops out of the ids |
| Phases.DistinctReply | instagram_bot.py:224 | a reply moves its thread's id from the pending ids to the replied ids |
| Phases.DmLoopDistinct | instagram_bot.py:216-230 | with distinct thread ids, no thread gets two replies |
| Phases.DmPhaseSpec | instagram_bot.py:210-235 | the replies are exactly `Answered` for the 20 fetched threads, at most 20; each is the first-match reply of a fetched thread; with distinct thread ids none gets two; the phase ends early exactly on a text-less last item |
| InstagramBot.Bot.constructor | instagram_bot.py:13-16 | the table starts as the state file loads |
| InstagramBot.Bot.SaveFollowedUsers | instagram_bot.py:42-50 | the file becomes what the save leaves, and is in step with the table after a successful write |
| InstagramBot.Bot.FollowUsers | instagram_bot.py:102-137 | the table, the file and the count end as `FollowPhase` says, and at most `limit` follows are made |
| InstagramBot.Bot.FollowCandidate | instagram_bot.py:116-132 | one loop turn below the limit does what `FollowStep` says |
| InstagramBot.Bot.StaleFollows | instagram_bot.py:142-155 | the ids collected are exactly `Selected` over the table in iteration order |
| InstagramBot.Bot.IsStale | instagram_bot.py:147-155 | an entry is collected exactly when it is two days old and the check reports no follow back |
| InstagramBot.Bot.UnfollowNonFollowers | instagram_bot.py:139-180 | the table, the file and the count end as `UnfollowPhase` says, with at most `limit` unfollows |
| InstagramBot.Bot.UnfollowAll | instagram_bot.py:157-176 | the unfollow loop ends as `Unfollows` says |
| InstagramBot.Bot.ReplyToStories | instagram_bot.py:182-208 | the replies are exactly `StoryPhase`, at most `limit` of them |
| InstagramBot.Bot.ReplyToUser | instagram_bot.py:189-203 | one user's inner loop continues the bounded loop over that user's stories |
| InstagramBot.Bot.React | instagram_bot.py:193-203 | one turn of a story or comment loop adds exactly the item's `Reaction` and counts it |
| InstagramBot.Bot.HandleDirectMessages | instagram_bot.py:210-235 | the replies and the abort flag are exactly `DmPhase`, at most 20 replies |
| InstagramBot.Bot.CommentOnPosts | instagram_bot.py:237-264 | the comments are exactly `CommentPhase`, at most `min(limit, 5, posts)` of them |
| InstagramBot.Bot.DailyOperations | instagram_bot.py:266-297 | nothing happens without login; otherwise the five phases run in order with a pause between two, the table and file end as the follow then unfollow phases leave them, and each phase keeps its limit |

## Left out

- Platform calls and login are inputs. Each platform call (`user_followers`,
  `user_follow`, `user_friendship`, `user_unfollow`, `get_following_stories`,
  `story_react`, `get_threads`, `direct_send`, `user_medias`,
  `media_comment`) is an input stating how the call ends. Login (`login`,
  `alternative_login`, the session file) is the flag `loginOk`.
- A failed fetch reads as an empty input. The follower fetch of
  `get_target_account_followers` and the other fetches return an empty list
  or raise into the phase's outer `except`; both give an empty pool.
- Logging (`setup_logging` and every logger call) is left out; it has no
  effect on the state.
- The pauses (`time.sleep(random.uniform(...))`) are left out. Only the pause
  markers between phases appear in the log of `DailyOperations`.
- The random choice of target account is left out. The follower and post
  lists of the chosen account are inputs.
- `run_scheduler` and `main.py` are not part of this model. `main.py` logs in
  once, runs one `daily_operations` cycle, then starts `run_scheduler`, an
  endless loop that runs the cycle at the configured hours. Between cycles
  only the table and the state file carry over, and both are modelled.
- The `.env` loading of `config.py` supplies the credentials only; it is
  static configuration and is not part of this model.
- The outer `try` of `daily_operations` is left out. Every phase catches its
  own exceptions, so nothing reaches it.
- The JSON text layer is abstracted. The file is absent, unreadable, or the
  list of an object's members in file order, each value a string or not.
- `Triggers.Lower` lower-cases ASCII letters only. Python's full Unicode case
  mapping is not modelled.
- `Timestamps.Parse` accepts only the two shapes `isoformat` writes for a
  naive value. Other ISO 8601 forms that `fromisoformat` also accepts are
  not modelled, because the bot only reads what it wrote.
- How each platform outcome is supplied:
  - follow outcomes are given per position in the fetched follower list;
  - DM send outcomes are given per thread position and, within a thread,
    per rule position;
  - the friendship check, the unfollow outcome, the response draw and the
    story and comment send outcomes are functions of the item id, so two
    visits of the same id in one call get the same outcome.

## Notes on the code

The names of the limits (`DAILY_FOLLOW_LIMIT`, `DAILY_UNFOLLOW_LIMIT`) and
the docstrings (`Execute all daily operations`) describe a daily budget. The
code differs from that reading in four places, and the model follows the
code:

- The limits count per call of a phase, not per calendar day. There is no
  day rollover.
- DM replies have no limit other than the 20 threads fetched.
- Counters do not outlive one cycle.
- A save writes the file in place, so a failed write leaves an unreadable
  file (`FollowStore.SaveSpec`). That file then loads as the empty table.
