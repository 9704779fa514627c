# SHMALI recommendation engine — a Dafny model

SHMALI is a Telegram bot that recommends podcasts. This project models its
recommendation engine, all of which lives in `shmali_bot.py`, and proves
properties of that model. The engine has four parts.

- **`SimilarityScorer`** (module `Scorer`) scores a show against a request
  as 70% topic fit plus 30% metadata fit.
  - Topic fit counts direct substring hits (topics count 2, keywords count 1)
    and blends them with a text-similarity ratio.
  - Metadata fit sums language, duration and episode-count weights. It is 0.5
    when none of those checks applies.
- **The relevance gate and the fallback analyser of `GPTAnalyzer`** (modules
  `Classifier` and `Fallback`).
  - The strict rule check of phrases and word counts runs first, and the
    older rule check is kept beside it.
  - `check_podcast_relevance` asks the external classifier only when the
    strict rules are unsure.
  - `basic_analysis` is the keyword-table analysis used when the language
    model fails.
- **The pool and the session state machine of `ShmaliBot`** (modules `Pool`,
  `Session` and `Bot`).
  - On first use or a topic change the pool is rebuilt: remote catalog
    results, then local dataset rows scoring at least 0.3, keeping the first
    item of each name, sorted by score, highest first.
  - Each call hands out the first pool item not yet shown and records its name.
- **The conversation log and `reset`** (module `Bot`).
  - `analyze_request` appends the model's analysis to a per-user log and keeps
    the newest five.
  - `reset` deletes the user from the log, the pools and the shown lists.

The stateful parts are classes whose methods change fields in place: `Bot.Analyzer` (the
conversation log) and `Bot.ShmaliBot` (the pools and shown lists). Their loops are proved
against reference functions: `Pool.Admitted`, `Pool.ScoreAll`, `Pool.TopicResults`,
`Pool.Dedup`, `Session.NextUnshown` and `Session.Serve`. The pure parts are functions with
lemmas. The external services are inputs:
- the language model's analysis is an `Option<Analysis>`, None when the call or its JSON failed;
- the external classifier's verdict is an `Option<Verdict>`;
- the remote catalog is a function from a query to `Option<seq<Show>>`, None when the call raised;
- `SequenceMatcher.ratio()` is a function parameter whose values lie in [0, 1];
- the local dataset is a sequence of records with optional fields.

## Model

| member | source | states |
|---|---|---|
| Scorer.TextSimilarity | shmali_bot.py:484-486 | the text-similarity ratio lies in [0, 1] |
| Scorer.CountHits | shmali_bot.py:506-520 | the number of terms found (lower-cased) in name, description or publisher is at most the number of terms; it equals it iff every term hits and is 0 iff none does |
| Scorer.DirectMatches | shmali_bot.py:506-519 | topics count 2 and keywords 1: the total is at most 2·topics + keywords, is 0 iff no term hits, and reaches that maximum iff every term hits |
| Scorer.TopicHitAddsTwo | shmali_bot.py:506-511 | one more topic adds exactly 2 to the matches when it hits the show, and nothing when it does not |
| Scorer.KeywordHitAddsOne | shmali_bot.py:514-519 | one more keyword adds exactly 1 to the matches when it hits the show, and nothing when it does not |
| Scorer.DirectScore | shmali_bot.py:532 | the normalised direct score lies in [0, 1] and is 1 exactly when the matches reach 2·(topics + keywords) |
| Scorer.DirectScoreFullIff | shmali_bot.py:506-532 | the direct score is 1 iff there are no keywords and every topic hits |
| Scorer.FuzzyScore | shmali_bot.py:522-533 | the larger of the name and description ratios lies in [0, 1] |
| Scorer.TopicScore | shmali_bot.py:489-538 | 0.5 with no topics and no keywords; otherwise within [0.7·direct, 0.7·direct + 0.3]; always in [0, 1] |
| Scorer.LanguageFit | shmali_bot.py:545-555 | applies iff a language is requested; Hebrew earns 0.5 iff "he" or "iw" is listed, English iff some listed language contains "en", any other value earns 0 |
| Scorer.DurationFit | shmali_bot.py:557-568 | applies iff the cap is present and non-zero and the duration is truthy (NaN, or non-zero minutes); a show longer than the cap, or with a NaN duration, earns 0 |
| Scorer.DurationFitRange | shmali_bot.py:563-566 | a show within a positive cap earns a duration weight in [0.15, 0.3) |
| Scorer.DurationFitPrefersShorter | shmali_bot.py:563-566 | within the cap a strictly shorter show earns a strictly larger weight |
| Scorer.EpisodeFit | shmali_bot.py:570-578 | applies iff episodes > 0; 0.2 iff 5..100, 0.1 iff above 100, 0 iff 1..4 |
| Scorer.MetadataScore | shmali_bot.py:541-581 | 0.5 when no check applies |
| Scorer.MetadataScoreBounds | shmali_bot.py:541-581 | the metadata score lies in [0, 1] for non-negative caps and durations |
| Scorer.ScoreBounds | shmali_bot.py:584-596 | the unrounded final score 0.7·topic + 0.3·metadata lies in [0, 1] |
| Scorer.ScoreNeutral | shmali_bot.py:502-503 | a request with no terms, scored against a show with no applicable check, gets exactly 0.5 |
| Scorer.TopicInNameScoresHigh | shmali_bot.py:506-538 | a request whose only term is a show's name gives that show a topic score of at least 0.7 |
| Scorer.WorkedExample | shmali_bot.py:584-596 | a Hebrew technology request capped at 30 minutes, scored against a 20-minute Hebrew technology show of 40 episodes, gets metadata 0.9 and a final score in [0.75, 1] |
| Scorer.ExampleMetadata | shmali_bot.py:541-581 | the metadata part of that example is 0.5 + 0.2 + 0.2 = 0.9 |
| Scorer.NaNDurationScoresZero | shmali_bot.py:557-582 | an empty (NaN) duration cell under a non-zero cap, with no language and no episodes, gives metadata 0, not the neutral 0.5 |
| Classifier.StrictManualCheck | shmali_bot.py:233-300 | on the trimmed lower-cased text: the first listed off-topic phrase found (`FirstIn`) gives (false, 0.95) and is the reason reported; otherwise at most three words and no podcast word gives (false, 0.85); otherwise (true, 0.3) |
| Classifier.ManualRelevanceCheck | shmali_bot.py:302-343 | an off-topic word gives (false, 0.9); otherwise a podcast word gives (true, 0.9); otherwise (false, 0.6) |
| Classifier.CheckRelevance | shmali_bot.py:174-181 | the strict verdict when its confidence exceeds 0.8; otherwise the classifier's verdict, or the strict one when the classifier failed |
| Classifier.TurnedAway | shmali_bot.py:352 | a request is refused iff its verdict is "unrelated" with confidence above 0.7; a related verdict or one of confidence 0.7 or less lets it through |
| Classifier.UnsureMeansInDomain | shmali_bot.py:295-300 | the strict check is unsure (confidence ≤ 0.8) iff it returned the in-domain verdict (true, 0.3) |
| Classifier.ShortCircuitIgnoresClassifier | shmali_bot.py:178-181 | when the strict check is sure, the gate's verdict does not depend on the classifier and the request is turned away |
| Classifier.ClassifierDownFailsOpen | shmali_bot.py:229-231 | with the classifier down, a request is turned away iff the strict check rejected it, and otherwise it is treated as in-domain |
| Classifier.OffTopicPhraseTurnsAway | shmali_bot.py:271-278 | any listed phrase occurring in the trimmed lower-cased text makes the gate refuse the request at confidence 0.95 |
| Classifier.WhatTimeIsItTurnedAway | shmali_bot.py:243 | "מה השעה?" is refused whatever the classifier says |
| Classifier.FinanceRequestTurnedAway | shmali_bot.py:266-278 | "פודקאסט על מימון" is refused because it contains the listed phrase "מי" |
| Fallback.DetectLanguage | shmali_bot.py:444-451 | English iff an English marker occurs in the lower-cased text, otherwise Hebrew |
| Fallback.TopicsFound | shmali_bot.py:458-473 | a table topic is reported iff one of its words occurs in the lower-cased text |
| Fallback.MatchingRows | shmali_bot.py:470-473 | the indices of the table rows with a word in the text, strictly increasing |
| Fallback.TopicsFoundInOrder | shmali_bot.py:470-473 | the reported topics are those of the matching rows, position by position, so they come in table order |
| Fallback.TopicsFoundDistinct | shmali_bot.py:470-473 | the reported topics have no repeats |
| Fallback.SearchFrom | shmali_bot.py:454 | the match found is the leftmost start of a digit run followed by optional whitespace and "דק" |
| Fallback.DigitRunIsMaximal | shmali_bot.py:454 | the greedy `\d+` takes only digits and stops before the first non-digit |
| Fallback.MatchAtIsRegex | shmali_bot.py:454 | the scan finds the pattern `(\d+)\s*דק` at an offset iff some digit run, whitespace run and "דק" follow there |
| Fallback.MatchAtValue | shmali_bot.py:454-455 | whichever way the pattern matches at an offset, the value read is `int` of that match's digit run |
| Fallback.MatchIsGreedy | shmali_bot.py:454 | a match can only use the longest digit run and the longest whitespace run after it |
| Fallback.ParseDuration | shmali_bot.py:453-455 | the parsed duration is the value of the leftmost matching digit run, or None when no run matches |
| Fallback.NoDigitsNoDuration | shmali_bot.py:453-455 | text without a digit yields no duration |
| Fallback.DurationRoundTrip | shmali_bot.py:453-455 | writing a number n in decimal, then whitespace, then a word starting with "דק" parses back to n |
| Fallback.Take | shmali_bot.py:476-477 | `xs[:n]`: the prefix of length n, or the whole sequence when it is shorter |
| Fallback.BasicAnalysis | shmali_bot.py:440-478 | language as above; keywords are the first three words of the lower-cased text; topics are exactly the table matches, without repeats, in table order; the duration is the parsed one; the intent is the first hundred characters |
| Records.ToShow | shmali_bot.py:629-637 | a dataset row becomes a show whose name and publisher are "Unknown" and url "#" when the column is absent, whose missing episode count is 0, whose description and duration cell are kept, and whose language is listed only when present |
| Pool.ScoreAll | shmali_bot.py:680-686 | item i of a query's results is show i, tagged with its source and carrying its own score |
| Pool.ScoreAllMembers | shmali_bot.py:680-686 | the items of a query are exactly its shows, tagged and scored |
| Pool.TopicResultsMembers | shmali_bot.py:669-689 | the per-topic results are exactly the shows the topic queries returned, tagged remote, each with its own score |
| Pool.IssuedQueries | shmali_bot.py:669-708 | the catalog is asked once per topic, in order, then for the first two keywords joined by a space only when the topic queries returned fewer than five shows and there are keywords |
| Pool.RemoteResults | shmali_bot.py:669-708 | the remote results begin with the per-topic results |
| Pool.RemoteResultsMembers | shmali_bot.py:669-708 | the remote results are exactly the shows the issued queries returned, tagged remote with their own score; none is filtered by score |
| Pool.Admitted | shmali_bot.py:627-646 | admitted rows are local, carry their own score and score at least 0.3 |
| Pool.AdmittedFromRows | shmali_bot.py:627-646 | every admitted item is the normalised show of some dataset row |
| Pool.AdmittedIff | shmali_bot.py:644-646 | a dataset row is admitted iff its score is at least 0.3 |
| Pool.LocalResults | shmali_bot.py:616-650 | the local results are the admitted rows, sorted in non-increasing score order, as a permutation, and stable: items of equal score keep dataset order |
| Pool.Dedup | shmali_bot.py:720-725 | the deduplicated list is no longer than the input |
| Pool.FirstPositions | shmali_bot.py:720-725 | the positions of the first item of each name, strictly increasing, and exactly those positions |
| Pool.DedupKeepsOrder | shmali_bot.py:720-725 | the deduplicated list is the input read at the first-occurrence positions, so the kept items keep their input order |
| Pool.DedupNames | shmali_bot.py:720-725 | a name occurs after deduplication iff it occurs before |
| Pool.DedupUnique | shmali_bot.py:720-725 | no two deduplicated items share a name |
| Pool.DedupKeepsFirst | shmali_bot.py:720-725 | the kept items are exactly the first occurrences of their names |
| Pool.SortDesc | shmali_bot.py:730 | the sort is non-increasing in score, a permutation, and stable: the items of each score keep their relative order |
| Pool.Merged | shmali_bot.py:687-715 | the remote results come first, then the local ones: no remote item follows a local one |
| Pool.BuildPool | shmali_bot.py:710-737 | a rebuilt pool has unique names and non-increasing scores |
| Pool.PoolIsFirstOccurrences | shmali_bot.py:710-730 | the pool holds each name of the remote-then-local results, and each of its items is the first item with that name |
| Pool.PoolLocalThreshold | shmali_bot.py:644-646 | every local item in the pool scored at least 0.3 |
| Pool.RemoteShowsReachPool | shmali_bot.py:680-730 | every show a successful catalog query returned has its name in the pool, whatever its score |
| Session.IsNewTopic | shmali_bot.py:757-770 | true for a user without a log and false while the log has fewer than two exchanges; otherwise true iff the topic sets of the request and of the second-to-last exchange differ |
| Session.NewTopicIff | shmali_bot.py:767-770 | with two or more logged exchanges, a request is a new topic iff some topic occurs in one of it and the second-to-last exchange but not the other; order and repetition do not matter |
| Session.TopicChangeExamples | shmali_bot.py:764-770 | after a "sports" exchange, "sports" keeps the session and "tech" starts a new one |
| Session.Remember | shmali_bot.py:398-407 | the log after an append holds at most five exchanges, ends with the new one, and is a suffix of the old log plus the new exchange |
| Session.NextUnshown | shmali_bot.py:747-755 | the delivered item is the first pool item whose name is not shown; nothing iff every name is shown |
| Session.DeliversInOrder | shmali_bot.py:742-755 | once the first k pool items have been shown, the next delivery is item k, or nothing when the pool is used up |
| Session.Serve | shmali_bot.py:662-755 | a call delivers at most one item, touches only the caller's entries and leaves every other user's entries as they were |
| Session.ServeKeepsConsistent | shmali_bot.py:662-755 | each user's shown list stays the names of a prefix of a pool of unique names; a delivered item is new to the user and exactly its name is appended |
| Session.Rebuilds | shmali_bot.py:662 | the pool is rebuilt iff the user has no pool, or no log, or two or more exchanges the second-to-last of which has another topic set |
| Session.ExhaustedStaysEmpty | shmali_bot.py:753-755 | once every name is shown, calls on the same topic return nothing and change nothing |
| Session.ContinuesInOrder | shmali_bot.py:738-751 | without a rebuild the next item is the one right after those already shown |
| Session.RebuildStartsOver | shmali_bot.py:662-666 | a rebuild empties the shown list, so the top of the new pool is delivered and is the only name shown |
| Session.MoreAfterTopicChangeRepeats | shmali_bot.py:762-770 | a "more" request right after a topic change rebuilds again and hands out the same item with the same state |
| Session.MoreOnSameTopicContinues | shmali_bot.py:742-751 | when the newest two exchanges share topics, a "more" request continues with the second item |
| Bot.Analyzer.Record | shmali_bot.py:398-407 | the user's log becomes the old log (or an empty one) with the exchange appended and cut to the newest five; other users' logs are kept |
| Bot.Analyzer.AnalyzeRequest | shmali_bot.py:345-415 | a request the gate refuses returns the gate's verdict and leaves the log alone; otherwise the model's analysis is returned and recorded, or, with the model down, the fallback analysis is returned unrecorded |
| Bot.ShmaliBot.SearchLocalDataset | shmali_bot.py:616-650 | the scan-and-sort loop computes exactly the local results |
| Bot.ShmaliBot.ScoreResults | shmali_bot.py:680-684 | the scoring loop computes exactly the scored query results |
| Bot.ShmaliBot.CollectRemote | shmali_bot.py:669-708 | the query loops compute exactly the remote results |
| Bot.ShmaliBot.Deduplicate | shmali_bot.py:720-725 | the `seen`-set loop computes exactly the first-occurrence list |
| Bot.ShmaliBot.RebuildPool | shmali_bot.py:668-737 | the rebuild produces a pool with unique names and non-increasing scores |
| Bot.FirstUnshown | shmali_bot.py:747-755 | the delivery loop finds exactly the first unshown item |
| Bot.ShmaliBot.GetRecommendations | shmali_bot.py:653-755 | the new pools, shown lists and result are those of `Session.Serve` on the pool a rebuild would produce, and the maps stay consistent |
| Bot.ShmaliBot.Reset | shmali_bot.py:851-860 | the user is removed from the log, the pools and the shown lists, and every other user keeps their entries |
| Bot.AfterResetStartsOver | shmali_bot.py:851-860 | after a reset the next call rebuilds and delivers the top of the rebuilt pool |
| Intro.CreatePersonalizedIntro | shmali_bot.py:772-796 | a "more" request gets the fixed "more" line; otherwise the line starts with the plain opening; it always ends with ':' |
| Intro.PlainIntroIff | shmali_bot.py:784-795 | the bare opening is used iff there are no topics, no non-zero cap and no English or Hebrew preference |
| Intro.IntroNamesFirstTopic | shmali_bot.py:784-785 | with topics, the opening is followed by the topic lead and the first topic |
| Intro.MoreIntroIgnoresAnalysis | shmali_bot.py:778-779 | the "more" line does not depend on the analysis |
| Intro.SportsExample | shmali_bot.py:772-796 | a Hebrew sports request capped at 10 minutes gets the opening, the sports topic, "עד 10 דקות" and "בעברית" |
| Text.Contains | shmali_bot.py:271-272 | substring test: true iff the pattern occurs at some position |
| Text.LeadingSpacesRun | shmali_bot.py:235 | the leading whitespace counted is all whitespace and stops before the first non-whitespace character |
| Text.Strip | shmali_bot.py:235 | the result is the text without leading and trailing whitespace, and has none left at either end |
| Text.Lower | shmali_bot.py:235 | lower-casing keeps the length and maps each ASCII capital to its small letter, leaving other characters alone |
| Text.Join | shmali_bot.py:694 | joining no parts gives the empty text, one part gives that part, and the first part always starts the result |
| Text.JoinSnoc | shmali_bot.py:694 | joining one more part appends the separator and that part |
| Text.WordPrefixIsRun | shmali_bot.py:280 | a word is the longest run free of whitespace: a prefix without whitespace, followed by whitespace or the end |
| Text.WordsShape | shmali_bot.py:280 | the words of the whitespace split are non-empty and free of whitespace, and there are none iff the text is all whitespace |
| Text.WordsAtStarts | shmali_bot.py:280 | the whitespace split equals the reference reading `WordsFrom`: at each position where a non-whitespace character follows whitespace or the start, in order, the longest whitespace-free run beginning there |
| Text.DigitsValueOfDecimal | shmali_bot.py:455 | the decimal digits of n read back as n |

## Left out

- Scorer.Score (`calculate_similarity_score`, shmali_bot.py:584-596) carries no contract of its own. The rows of Scorer.ScoreBounds and Scorer.ScoreNeutral state its properties: the range [0, 1] and the neutral value 0.5.
- The Spotify client (`SpotifyAPI`, `spotify_api.py`): token handling and HTTP are network I/O. The catalog is a query function passed in; its duration and language filtering and result limit happen inside that function.
- The OpenAI calls of `check_podcast_relevance` and `analyze_request` are foreign calls. Their answers are inputs. A verdict whose JSON lacks fields, and the exception that would raise, are not modelled.
- The prompt text and the two logged exchanges placed in the prompt only influence the foreign call, so they are not modelled.
- `generate_non_podcast_response` only chooses reply wording. A refused request carries the gate's verdict instead of the reply text.
- The Telegram handlers `start`, `handle_message` and `main` are transport. This includes the "more"-word detection and the Hebrew-character ratio check. How a "more" request reuses the newest logged analysis is stated in Session.MoreAfterTopicChangeRepeats and Session.MoreOnSameTopicContinues.
- `load_local_data` is pandas file I/O. The dataset is a sequence of records. An absent column reads as None. An empty duration cell is NaN (Records.Duration), which counts as a duration that fails the cap test. An empty description cell is the text "nan" that `str` gives it, passed in as the cell's text.
- Records.ToShow: a NaN name or publisher cell makes `.lower()` raise, which drops all local results; the model's rows always carry text there (see the local-search line below).
- `format_single_recommendation` and all `print` logging are output formatting.
- `round(final_score, 3)` is float rounding. The model scores with the exact real 0.7·topic + 0.3·metadata, and the 0.3 threshold and the sort use that unrounded value.
- The local search raising an exception (caught in `get_recommendations`) is not modelled. The model's local search always succeeds.
- Scorer.TextSimilarity: `SequenceMatcher.ratio()` is a library algorithm. It stays abstract, and only its range [0, 1] is used.
- Text.Lower: lower-casing covers ASCII letters only. The rule phrases are Hebrew or lower-case English, so for the rule checks only ASCII case matters. Scorer.Hit and Scorer.FuzzyScore also lower-case show names, descriptions and publishers; there, non-ASCII capitals (accented Latin, Greek, Cyrillic) stay as they are, so a term can miss a show Python would match.
- Fallback.ParseDuration: `\d` matches ASCII digits only. Digits of other scripts are not modelled.
- Scorer.ScoreBounds: the [0, 1] bound is proved only for non-negative caps and durations. A negative cap from the language model, or a negative duration, can push the metadata score outside [0, 1].
- Scorer.MetadataScoreBounds: same limit as Scorer.ScoreBounds.
- The model's `duration_max` is an integer, so a fractional cap from the language model is not modelled.
- The concurrency of the async handlers is not modelled: each call runs to completion before the next.
- `manual_relevance_check` is never called by the bot. It is modelled for completeness but plays no part in the gate.
