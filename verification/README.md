# ku-polls in Dafny

A model of the domain rules of the ku-polls Django app. In that app users vote on
poll questions, like or dislike them, and browse the latest polls. The model covers:

- the `Question` rules in `polls/models.py`:
  - publication and voting windows
  - the "time left" text
  - tag line, trending score and creation-time `save`
  - sentiment votes (`upvote`, `downvote`, their counts and percentages)
  - the derived counts of the `Vote` table (`Choice.votes`, `participants`)
- the three listing pages and the `vote` view in `polls/views.py`
- `get_client_ip` in `polls/signals.py`

Everything is a pure function of explicit inputs:

- Database tables are sequences of immutable rows.
- The current time `now` is a parameter.
- Timestamps are whole seconds.

## Modules

| file | module | what it holds |
|---|---|---|
| `wrappers.dfy` | `Wrappers` | `Option` (Python `None`), `Result` (an operation that may raise) |
| `text.dfy` | `Text` | `sep.join`, `s.split(sep)`, `s.strip()`, `str(n)` and their round trips |
| `polls.dfy` | `Polls` | the records, primary-key lookup, `is_published`, `can_vote`, `was_published_recently`, `calculate_time_left`, `get_tags` |
| `sentiment.dfy` | `Sentiment` | the `SentimentVote` table, its per-question ledger (user ↦ like/dislike), `upvote`/`downvote`, the counts, `calculate_vote_percentage` |
| `trending.dfy` | `Trending` | `trending_score` as written and as intended, `Question.save` |
| `ballots.dfy` | `Ballots` | the `Vote` table, `Choice.votes`, `participants`, casting a vote, the `vote` view as written and corrected |
| `listing.dfy` | `Listing` | `HomeView`, `IndexView`, `DetailView`: filter, newest-first sort, take five, counts |
| `signals.dfy` | `Signals` | `get_client_ip` |

### Sentiment votes

The storage layer's `unique_together = ['user', 'question']` becomes the predicate
`UniquePairs`. Every operation that reads a user's row requires it, and every
operation that changes the table keeps it.

`Ledger(t, q)` is the map from each user with a row for `q` to that row's direction.

- `up_vote_count` and `down_vote_count` are row counts.
- They are proved equal to the sizes of the ledger's like and dislike sets.
- Their sum is proved equal to the ledger's size.

`upvote`/`downvote` share the body `Cast`. The `IntegrityError` path of the source is
the case where the user already has a row:

- no row: insert one and return true
- a row in the other direction: flip it and return true
- a row in the same direction: change nothing and return false

### Vote table

The source declares no uniqueness constraint on `Vote`. The model's vote casting
keeps one row per (user, question) (`OneVotePerQuestion`), as the app's vote tests
expect. `Choice.votes` and `participants` are row counts.

## Model

| member | source | states |
|---|---|---|
| Polls.QuestionById | polls/views.py:80 | the lookup succeeds exactly when some question has the key, and returns a question of the table with that key |
| Polls.IsPublished | polls/models.py:76-84 | published iff `now >= pub_date`, i.e. iff the floor decomposition of `now - pub_date` has no negative days |
| Polls.CanVote | polls/models.py:86-97 | a votable question is published; an end date before the publication date never allows a vote |
| Polls.CanVoteWindow | polls/models.py:93-97 | voting is allowed iff `pub_date <= now` and there is no end date or `now <= end_date`, both ends inclusive |
| Polls.CanVoteBetween | polls/models.py:93-97 | a moment between two votable moments is votable: the voting window has no holes |
| Polls.PublicationIsMonotone | polls/models.py:76-97 | once published a question stays published; once a published question with an end date is closed it stays closed |
| Polls.WasPublishedRecently | polls/models.py:66-68 | true iff `0 <= now - pub_date <= 86400`, so a future question and one older than a day are not recent; recent implies published |
| Polls.Decompose | polls/models.py:112-114 | the divmod chain: days·86400 + hours·3600 + minutes·60 + seconds equals the total, with hours, minutes and seconds in range |
| Polls.DecomposeUnique | polls/models.py:112-114 | no other split of the total has hours, minutes and seconds in range: the decomposition is floor division unit by unit |
| Polls.DecomposeFields | polls/models.py:112-114 | days are positive exactly from one day on; each field is the floor quotient or remainder of the total |
| Polls.StripAmount | polls/models.py:118-126 | `"<n> <unit> "` strips to `"<n> <unit>"` |
| Polls.TimeLeftOfDecomposition | polls/models.py:116-126 | the text names the largest positive unit of the decomposition (Days, then Hours, then Mins, then Sec), and is empty when none is positive |
| Polls.TimeLeftLargestUnit | polls/models.py:112-126 | the same in terms of the total: whole days from one day on; below a day, hours, minutes or seconds of `total % 86400` |
| Polls.TimeLeftDays | polls/models.py:117-118 | a total of at least one day reads `"<total // 86400> Days"` |
| Polls.TimeLeftHours | polls/models.py:119-120 | below one day and at least an hour into the day, the text is the whole hours |
| Polls.TimeLeftMinutes | polls/models.py:121-122 | below one day and between a minute and an hour into the day, the text is the whole minutes |
| Polls.TimeLeftSeconds | polls/models.py:123-124 | below one day and less than a minute into the day, the text is the seconds |
| Polls.TimeLeftEmpty | polls/models.py:116-126 | the text is empty iff the total is zero or negative and a whole number of days |
| Polls.RenderBelowDay | polls/models.py:117-126 | without positive days the text depends only on hours, minutes and seconds |
| Polls.PastEndReadsAsTimeOfDay | polls/models.py:110-126 | a past end date reads like `total % 86400` seconds left: a closed poll shows a time of day, never days |
| Polls.CalculateTimeLeft | polls/models.py:106-126 | "No end date" without an end date; otherwise empty iff the remaining seconds are a non-positive whole number of days, `"<n> Days"` from one day on, and below a day the whole hours, minutes or seconds of `total % 86400`, whichever is the largest positive unit |
| Polls.TimeLeftOf | polls/models.py:110-126 | the text for a signed number of seconds meets `DescribesTimeLeft`: empty exactly for a non-positive whole number of days, otherwise the largest positive unit (Days, Hours, Mins or Sec) with its count |
| Polls.TimeLeftFacts | polls/models.py:110-126 | the time-left text of any total meets `DescribesTimeLeft`, every unit case included |
| Polls.TagTexts | polls/models.py:226 | one text per tag, in the tags' order |
| Polls.GetTags | polls/models.py:225-226 | the tag line is the "-" join of the tag texts in order, whatever characters they hold (so it is fixed for every tag list through `Text.Join`); no tags give an empty line; the tag line of dash-free tags splits on "-" back into exactly the tag texts, in order |
| Text.Join | polls/models.py:226 | no parts give ""; a single part is returned unchanged; otherwise the line starts with the first part, and with two or more parts the separator follows it and then the join of the rest |
| Text.IndexOf | polls/signals.py:11 | the position of the first occurrence of the separator |
| Text.Split | polls/signals.py:11 | at least one piece; no piece holds the separator; the first piece is a prefix followed by the separator or the end; a string without the separator is one piece |
| Text.JoinSplit | polls/models.py:226 | joining the pieces of a split gives the string back |
| Text.SplitJoin | polls/models.py:226 | splitting the join of a non-empty list of separator-free parts gives the parts back |
| Text.StripTrailing | polls/models.py:126 | a prefix of the input that does not end in whitespace, with only whitespace dropped |
| Text.StripLeading | polls/models.py:126 | a suffix of the input that does not start with whitespace, with only whitespace dropped |
| Text.Strip | polls/models.py:126 | neither end of the result is whitespace, and the result is the input with only whitespace cut from its front and back |
| Text.StripOneTrailingSpace | polls/models.py:118-126 | a string without whitespace at its ends, plus one space, strips back to itself |
| Text.NatToString | polls/models.py:118 | `str(n)`: only digits, at least one, no leading zero except for 0 |
| Text.ParseNatToString | polls/models.py:118 | reading the rendered digits back gives the number |
| Text.NatToStringInjective | polls/models.py:118 | different counts render differently |
| Sentiment.UniquePrefix | polls/models.py:298 | dropping the last row keeps pairs unique, and the last row's pair does not occur before it |
| Sentiment.HasRowSnoc | polls/models.py:289-290 | a table with one more row has a row for the pair iff the old table does or the new row is the pair's |
| Sentiment.Ledger | polls/models.py:289-298 | the ledger's users are exactly those with a row for the question |
| Sentiment.LedgerValue | polls/models.py:289-298 | with unique pairs, a user's ledger entry is the direction of that user's row |
| Sentiment.VotersUpdate | polls/models.py:194-202 | setting one entry moves that user into or out of a direction's voter set, changing its size by at most one |
| Sentiment.CountVotes | polls/models.py:194-202 | the count is the number of rows of the question in that direction |
| Sentiment.UpVoteCount | polls/models.py:194-197 | with unique pairs, `up_vote_count` is the number of users who like the question |
| Sentiment.DownVoteCount | polls/models.py:199-202 | with unique pairs, `down_vote_count` is the number of users who dislike the question |
| Sentiment.CountsAreVoters | polls/models.py:194-202 | with unique pairs, a vote count is the number of ledger users voting in that direction |
| Sentiment.CountsCoverLedger | polls/models.py:194-202 | up count + down count = the number of users with an entry |
| Sentiment.FirstRow | polls/models.py:170-171 | `filter(user=u)[0]`: a row of the pair |
| Sentiment.SetDirection | polls/models.py:172 | `update(vote_types=…)`: every row of the pair gets the direction, every other row is unchanged |
| Sentiment.LedgerSetDirectionOther | polls/models.py:172 | the update leaves other questions' ledgers unchanged |
| Sentiment.LedgerSetDirectionSame | polls/models.py:172 | the update sets the user's entry in the question's ledger |
| Sentiment.LedgerUnchangedWithoutRow | polls/models.py:172 | without a row for the pair the update changes nothing |
| Sentiment.LedgerSetDirection | polls/models.py:172 | the update sets the user's entry and leaves every other ledger unchanged |
| Sentiment.SetDirectionUnique | polls/models.py:172 | the update keeps pairs unique |
| Sentiment.LedgerAppend | polls/models.py:167 | a new row sets its user's entry in its question's ledger and no other |
| Sentiment.AppendUnique | polls/models.py:167 | inserting a row for a fresh pair keeps pairs unique |
| Sentiment.CountsFollowLedger | polls/models.py:194-202 | tables with the same ledger for a question have the same counts for it |
| Sentiment.CountsAfterEntrySet | polls/models.py:194-202 | setting one entry adds one to its direction unless it already had it, and takes one from the other direction if it had that |
| Sentiment.InsertEffect | polls/models.py:166-168 | the insert keeps pairs unique, sets the user's entry and leaves other questions alone |
| Sentiment.FlipEffect | polls/models.py:170-173 | the flip keeps pairs unique, sets the user's entry and leaves other questions alone |
| Sentiment.Cast | polls/models.py:162-192 | reports true iff the user had no entry or the other direction; a false report leaves the table as it was; the entry becomes the direction; no other question changes; one unit moves between the counts |
| Sentiment.Upvote | polls/models.py:162-176 | like: true iff no entry or a dislike; the entry becomes a like; a new like adds one up vote; a flip moves one vote from down to up |
| Sentiment.Downvote | polls/models.py:178-192 | dislike: true iff no entry or a like; the entry becomes a dislike; a new dislike adds one down vote; a flip moves one vote from up to down |
| Sentiment.RepeatIsNoOp | polls/models.py:174-175 | voting the same direction again reports false and changes nothing |
| Sentiment.CastLeavesOthers | polls/models.py:162-192 | other users' entries and other questions' entries are untouched |
| Sentiment.TruncatedSharesSum | polls/models.py:139-142 | the two truncated shares of a positive total sum to 99 or 100 |
| Sentiment.TruncatedShare | polls/models.py:139-142 | a truncated share is at most 100 and is the largest whole percentage not above the exact share |
| Sentiment.Percentages | polls/models.py:133-142 | (0, 0) without votes; otherwise each count's truncated share, each within [0, 100], summing to 99 or 100 |
| Sentiment.CalculateVotePercentage | polls/models.py:133-142 | (0, 0) when no one has an entry; otherwise each count's truncated share of the users with an entry, each ≤ 100, summing to 99 or 100 |
| Trending.TimedeltaSeconds | polls/models.py:206-209 | `timedelta.seconds` lies in [0, 86400) and differs from the elapsed time by whole days, for negative durations too |
| Trending.RecencyBase | polls/models.py:209-216 | 100 iff under three days; exactly 75 from three to seven days and exactly 50 from seven to thirty (at least 75 iff under seven, at least 50 iff under thirty); 25 iff thirty days or more |
| Trending.RecencyBaseAntitone | polls/models.py:209-216 | the recency bucket never grows with age and lies between 25 and 100 |
| Trending.SentimentAdjustment | polls/models.py:218-221 | `(up/5 - down/5)·100` is exactly `20·(up - down)` |
| Trending.ScoreAsWritten | polls/models.py:204-223 | as written the score is always `100 + 20·(up - down)`: age never matters and there is no clamp |
| Trending.IntendedScore | polls/models.py:209-216 | with the bucket taken from the total elapsed seconds, the score is that bucket plus `20·(up - down)`; below three days it equals the as-written score |
| Trending.IntendedScoreAges | polls/models.py:209-216 | the intended score never rises with age, and falls when the question crosses three days |
| Trending.TenDayOldScoresAsNew | polls/models.py:206-216 | a ten-day-old question scores 100 as written, 50 as intended |
| Trending.ScoreMonotoneInVotes | polls/models.py:218-223 | both scores strictly increase with up votes and do not increase with down votes |
| Trending.TrendingScore | polls/models.py:204-223 | explicit counts give `100 + 20·(up - down)`; no counts read the question's own counts, or raise `ValueError` without a key; one count alone raises `TypeError` |
| Trending.Save | polls/models.py:228-237 | only the first save sets the trend score: from the question's counts, or from zero counts when reading them raises; later saves change nothing |
| Trending.NewQuestionScoresHundred | polls/models.py:232-236 | a question saved before it has a key starts with score 100 at any age |
| Ballots.VotedChoice | polls/models.py:264-269 | a user has a choice in a question iff the table holds a row of that pair, and the choice returned is that of a row (user, question, choice) of the table |
| Ballots.VotedChoiceIsRow | polls/models.py:264-269 | with one vote per pair, the row (u, q, x) is in the table iff the user's choice in q is x |
| Ballots.ChoiceVotes | polls/models.py:253-255 | `Choice.votes` is the number of rows pointing at the choice |
| Ballots.Participants | polls/models.py:154-159 | `participants` is the number of rows of the question |
| Ballots.OneVotePrefix | polls/models.py:264-269 | dropping the last row keeps one vote per pair, and the last row's pair has no earlier vote |
| Ballots.ParticipantsAreVoters | polls/models.py:154-159 | with one vote per pair, `participants` is the number of distinct users who voted in the question |
| Ballots.Repoint | polls/views.py:93-94 | the rows of the pair get the new choice, every other row is unchanged |
| Ballots.RepointUnique | polls/views.py:93-94 | re-pointing keeps one vote per pair |
| Ballots.RepointVoted | polls/views.py:93-94 | re-pointing gives the pair the new choice and changes no other pair's choice |
| Ballots.RepointParticipants | polls/models.py:154-159 | re-pointing changes no participant count |
| Ballots.RepointChoiceVotes | polls/models.py:253-255 | re-pointing moves one vote from the old choice to the new one |
| Ballots.RepointEffect | polls/views.py:93-94 | changing a vote keeps one vote per pair, records the new choice, leaves other pairs and participant counts alone, and moves one vote between choices |
| Ballots.AppendEffect | polls/views.py:93-94 | a first vote adds one participant and one vote for the choice and leaves other pairs alone |
| Ballots.CastVote | polls/views.py:93-94 | after the vote the user has exactly the chosen choice; a new row iff the user had no vote; participants grow only for a new voter; one vote moves from the old choice to the new one |
| Ballots.RevoteSameChoice | polls/views.py:93-94 | voting again for the same choice changes no count |
| Ballots.VoteThenChange | polls/views.py:93-94 | vote c1 then c2: one vote, for c2; the row (u, q, c2) is in the table and (u, q, c1) is not; c1's count is back where it was; one more participant |
| Ballots.SelectChoice | polls/views.py:82-83 | the lookup succeeds iff the form has a choice key and a choice of this very question has that id; the result is that choice |
| Ballots.VoteAsWritten | polls/views.py:74-95 | unknown question → 404; missing or foreign choice → detail page with "You didn't select a choice."; valid choice → `AttributeError` |
| Ballots.ValidVoteCrashes | polls/views.py:93 | a concrete valid submission crashes the view as written |
| Ballots.SubmitVote | polls/views.py:74-95 | 404 and error page leave the vote table unchanged; a redirect happens iff question and choice are valid, and then the user's vote is that choice, the row (user, question, choice) is in the table, and that choice gains a vote unless it already had the user's |
| Listing.Filter | polls/views.py:22 | keeps exactly the questions meeting the condition, each meeting question as often as in the input |
| Listing.FilterFilter | polls/views.py:22 | filtering twice is filtering once by both conditions |
| Listing.FilterEquivalent | polls/views.py:22 | filters by equivalent conditions agree |
| Listing.Published | polls/views.py:44 | `pub_date__lte=now` keeps exactly the published questions of the table |
| Listing.InsertPos | polls/views.py:23 | the insertion point: every question before it is newer, the one at it is not |
| Listing.Insert | polls/views.py:23 | inserting into a newest-first list keeps it newest first and adds exactly that question |
| Listing.InsertAtPos | polls/views.py:23 | insertion at the insertion point keeps the order and adds exactly the question |
| Listing.SortNewestFirst | polls/views.py:23 | the result is a permutation of the input ordered by `pub_date`, latest first |
| Listing.Take | polls/views.py:23 | `[:n]` is the prefix of length `min(len, n)` |
| Listing.PrefixOfNewestFirst | polls/views.py:44-46 | a prefix of a newest-first list is newest first and holds every member newer than its last element |
| Listing.Page | polls/views.py:23 | up to five questions, latest first, all from the input, none newer than the last shown left out (none at all left out when fewer than five) |
| Listing.IndexQuestions | polls/views.py:39-46 | the index page is the page of the published questions |
| Listing.IndexShowsLatestPublished | polls/views.py:44-46 | the index lists only published questions of the table and leaves out no published question newer than its last one |
| Listing.DetailObject | polls/views.py:58-62 | the detail page finds a question iff a published question has that key: a future question is not found |
| Listing.OpenPolls | polls/views.py:22 | the home page's candidates are exactly the votable questions of the table |
| Listing.LatestOpenPolls | polls/views.py:23-25 | `latest_question_list` is the page of the open polls |
| Listing.HomeShowsLatestOpen | polls/views.py:22-25 | the home list holds only votable questions and leaves out no votable question newer than its last one |
| Listing.OpenWithoutEndDate | polls/views.py:26 | the open polls without an end date are the votable questions without an end date |
| Listing.VotableIsOpen | polls/views.py:22 | `is_published() and can_vote()` holds iff `can_vote()` does |
| Listing.Home | polls/views.py:18-28 | the latest open polls; `total_open_polls` counts votable questions without an end date; `total_open_polls` ≤ open polls ≤ `total_polls` = number of questions |
| Listing.OpenPollsAreVotable | polls/views.py:22 | the home page's filter equals the `can_vote()` filter alone |
| Listing.OpenPollsArePublished | polls/views.py:22 | the open polls are the published questions filtered by `can_vote()` |
| Signals.ClientIp | polls/signals.py:8-14 | a non-empty X-Forwarded-For gives a comma-free prefix of it, ending at its first comma or at its end, so a comma-free header comes back whole; otherwise REMOTE_ADDR, or nothing |
| Signals.ClientIpIsFirstEntry | polls/signals.py:9-11 | for `first + "," + rest` with a comma-free `first`, the address is `first`, untrimmed, even when it is empty |

## Left out

- Time: timestamps are whole seconds. Microseconds and `timedelta.total_seconds()` fractions are not modelled. With them, a fraction of a second left would read "0 Sec".
- Clock: `timezone.now()` is the parameter `now`, one reading per request. `HomeView` reads the clock up to twice per question (in `is_published` and in `can_vote`); `IndexView` and `DetailView` read it once per request.
- Floating point: `trend_score` is a `real`, the exact value that Python's float arithmetic approximates (the float result can differ in the last bits, e.g. -120.00000000000003 for no up votes and eleven down votes). `int(x / total * 100)` is exact integer division.
- Sentiment.Percentages: a single share is computed by exact division. With IEEE doubles a share of 29, 57 or 58 comes out one lower (29 / 100 · 100 gives 28.999…), so for 21 up and 29 down votes the source reports (42, 57) where the model gives (42, 58). No two of those three shares add up to 100, so the source's sum is also always 99 or 100.
- Sentiment.UniquePairs: the uniqueness of (user, question) is a precondition. The source's database enforces it. `IntegrityError` control flow, transactions and the race between two requests of the same user are not modelled.
- Ballots.OneVotePerQuestion: the source declares no uniqueness on `Vote`. The corrected vote view keeps one row per pair, as the app's vote tests expect of it. A table that already holds duplicates is outside the model.
- Listing.Page: the order among questions with equal `pub_date` is not stated. `sorted` keeps table order and the database's `order_by` leaves it unspecified, so the contracts promise only newest-first order.
- Login and eligibility: `polls/views.py` defines no login requirement for the `vote` view and no check of whether the question is open. The user is a parameter.
- Search, sign-up and `up_down_vote` views: referenced by `polls/urls.py` but not defined in `polls/views.py`, so there is nothing to model.
- `ResultsView`: a plain detail view of any question, with no logic of its own.
- Logging callbacks: the signal handlers in `polls/signals.py` only write log lines. Only `get_client_ip`, which computes the logged address, is modelled.
- Other files:
  - `setup.py`: interactive input and subprocesses.
  - `polls/forms.py`, `polls/admin.py`, `polls/urls.py`, `mysite/urls.py`: configuration.
  - `polls/static/polls/js/detail.js`: user-interface script.
- Choice key: a posted choice key that is not a number (a `ValueError` in the lookup) is not modelled. The key is an optional choice id.
- Text.IsSpace: only four ASCII whitespace characters (space, tab, newline, carriage return) are stripped. Python's `strip()` also removes '\x0b', '\x0c', '\x1c'-'\x1f' and non-ASCII whitespace such as '\x85' and '\xa0'. The stripped strings hold none of those.
- `Choice.__str__`, `Question.__str__`, `Tag.__str__`: display strings, not modelled.

## Findings

| source | as written | input that shows it | evidently intended | confidence | as-written member | corrected member |
|---|---|---|---|---|---|---|
| polls/models.py:206-216 | the recency bucket is chosen from `timedelta.seconds`, the within-day part of the age (0 to 86399), so it is always 100 | a question published ten days ago with no votes scores 100 | the bucket follows the total age: 100 below three days, 75 below seven, 50 below thirty, 25 after | not executed | Trending.TenDayOldScoresAsNew | Trending.IntendedScoreAges |
| polls/views.py:93-94 | the success branch assigns to `selected_choice.votes`, a property without a setter, so Python raises `AttributeError` and no vote is recorded | any valid submission, e.g. question 1 with its choice 7 | record the user's vote in the `Vote` table, replacing an earlier vote in the same question | not executed | Ballots.ValidVoteCrashes | Ballots.SubmitVote |

`Trending.ScoreAsWritten` is the score as written, and `Question.save` stores it, so
`Trending.Save` uses it. `Trending.IntendedScore` is the corrected score.
`Ballots.VoteAsWritten` is the view as written, and `Ballots.SubmitVote` is the
corrected view, built on `Ballots.CastVote`.
