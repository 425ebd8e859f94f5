# A verified model of the WRTS flashcard trainer's core

`WRTS.py` is a tkinter flashcard trainer (`LanguageLearnerApp`). It loads
a word list, asks the words one by one, and grades each answer. In "in
gedachten" mode the user grades it; in "dictee" mode a typed answer is
compared with the target. Missed words are repeated a few cards later,
and the code also keeps a final round meant to ask them once more; as
written, in sequential use that round never shows a card (see
"## Findings"). At the end the app shows a score and a message, and it
can write the words missed at least `n` times to a list one level up. This project models the logic under the widgets in Dafny
and proves what that logic promises:

- `grading.dfy` (module `Grading`) covers `calculate_mismatch` and the
  acceptance test of `check_dictee_answer`. It proves the mismatch is the
  length difference plus the differing positions, and that it is
  symmetric, ignores case, is zero exactly for equal words and has
  bounds.
- `filenames.dfy` (module `FileNames`) covers `parse_filename`, its
  `basename`, `splitext` and regex steps, and the two name builders: the
  next-level name of `create_new_list` and the fused name of
  `fuse_selected_files`, with the "last two base names" length rule and
  its error cases. Both built names parse back to the level and base they
  encode, as long as the level has two digits (a list at level 99
  exports to a "100_" name, which parses at level 0) and no base name
  holds a '/' or a line break (a line break defeats the prefix pattern).
- `cards.dfy` (module `Cards`) holds the card record of `start_session`
  and the counts over a list of cards.
- `scheduler.dfy` (module `Scheduler`) is the session scheduler as a
  class. Its fields are the cards and the main and final queues (indices
  into `cards`, the way the Python queues hold references to the same
  card dicts), the current card and the two tallies. Its methods are
  `start_session`'s card build and queue setup, `mark_correct`,
  `mark_incorrect`, the grading of `check_dictee_answer`, `next_card` and
  `schedule_incorrect_card`. Each method is proved against value-level
  functions (`NextDraw`, `Requeue`, `AppendOnce`) and keeps the session
  invariant `Valid()`. The invariant says:
  - every index names a card;
  - the tallies count the completed cards and all misses;
  - a card is appended to the final queue at most once, exactly when its
    `final_scheduled` flag is set;
  - every card that is not completed waits in the main queue or is the
    current card (a miss always puts the card back there);
  - the session has ended only when every card is completed.
- `scoring.dfy` (module `Scoring`) covers the score and the message of
  `end_session`. The model rounds the exact quotient half to even, as
  Python's `round` does on its float (see Scoring.ScoreOf under
  "## Left out" for where the float differs).
  It proves the score is a percentage, is 100 for a perfect session, and
  never rises with a further miss. It also proves the tier brackets and
  the 69 special case.
- `export.dfy` (module `Export`) covers the filter and the result of
  `create_new_list`.
- `util.dfy` (module `Util`) holds `Option`, `Result` and small helpers.

Randomness becomes parameters:

| Python call | parameter | constraint |
|---|---|---|
| `random.shuffle` | `swaps` | the exchanges of the shuffle, `swaps[k] <= k` |
| `random.randint(3, 6)` | `offset` | `3 <= offset <= 6` |
| `random.choice(jokes)` | `joke` | an index into the five jokes |

The threshold of the mismatch spin box and the `n` of the export spin box
are parameters too.

Where the code and its own comments disagree, the model follows the
code:
- The docstring of `end_session` (WRTS.py:716-717) weighs a card missed
  once by 1/3. The code (WRTS.py:732) uses 1/5, and so does the model.
- The scheduler raises no error for an empty card list, for a call after
  the session has ended, or for an answer with no current card. An empty
  list is refused earlier, by `load_file` (WRTS.py:173-175) and
  `go_to_settings` (WRTS.py:198-200), which are not part of this model;
  the session model accepts zero rows, and the score of no cards is
  then 0 as `end_session` computes it. With no current card, `check_dictee_answer` returns and `mark_correct` /
  `mark_incorrect` only draw, and the model does the same. A finished
  session (`ended`) is excluded by the methods' preconditions, since the
  app destroys the session screen at that point.

## Model

| member | source | states |
|---|---|---|
| Grading.LowerStr | WRTS.py:22-23 | on the model's alphabet, no capital is left in the result, every character that is not a capital stays in its place, and each capital becomes its lower-case letter in its place |
| Grading.LowerStrIdempotent | WRTS.py:22-23 | lower-casing twice is lower-casing once |
| Grading.Strip | WRTS.py:634 | `.strip()` returns the slice of the answer after its leading white space; it neither starts nor ends with white space, and only white space follows it |
| Grading.DiffCountIsSize | WRTS.py:26 | the generator sum counts exactly the set of positions below the common length where the words differ |
| Grading.MismatchCountsDifferences | WRTS.py:14-27 | the mismatch is the length difference plus the number of differing positions of the lower-cased words within the shorter length |
| Grading.MismatchSymmetric | WRTS.py:14-27 | the mismatch does not depend on the order of the words |
| Grading.MismatchIgnoresCase | WRTS.py:22-23 | lower-casing either word first does not change the mismatch |
| Grading.MismatchZeroIff | WRTS.py:14-27 | the mismatch is zero if and only if the lower-cased words are equal |
| Grading.MismatchBounds | WRTS.py:24-27 | the mismatch lies between the length difference and the longer length |
| Grading.AcceptsMonotone | WRTS.py:634-638 | an answer equal to the target up to case and surrounding space is accepted at every threshold of at least 0; acceptance survives raising the threshold |
| Grading.KaasExample | WRTS.py:14-27 | "kaas" against "kaassoort" has mismatch 5: refused at threshold 0, accepted at 5 |
| FileNames.Basename | WRTS.py:37 | the result is the suffix of the path after its last '/', and holds no '/' |
| FileNames.LastDot | WRTS.py:38 | the index of the last '.', or none when there is no '.' |
| FileNames.SplitExt | WRTS.py:38 | the two parts rebuild the name; the extension is empty or a '.' and text without '.'; a name whose dots are all leading has no extension |
| FileNames.SplitExtOf | WRTS.py:38 | splitting a name followed by a proper extension returns exactly those two |
| FileNames.NatToString | WRTS.py:353 | the digits denote the number, with no leading zero; one digit below 10, two below 100 |
| FileNames.Pad2 | WRTS.py:810 | `:02d` denotes the number; it has two digits up to 99, three or more above, and no leading zero from 10 on |
| FileNames.CanonicalDigits | WRTS.py:810 | a digit string without a leading zero is the plain decimal numeral of its value |
| FileNames.Pad2Unique | WRTS.py:810 | any digit string that meets Pad2's contract is `Pad2(n)`, so the contract fixes the `:02d` text |
| FileNames.ParseFilename | WRTS.py:30-45 | the level is at most 99, the base holds no '/', and the extension is the one `splitext` gives for the file name, a proper extension |
| FileNames.ParseWithPrefix | WRTS.py:39-43 | with the `NN_` prefix, the level is the value of the two digits; the base is the rest of the name without a single final line break |
| FileNames.ParseWithoutPrefix | WRTS.py:44-45 | without the prefix, the level is 0, the base is the name part of `splitext`, and base plus extension is the whole file name |
| FileNames.ParsePrefixed | WRTS.py:30-45 | two digits, '_', a rest and an extension parse back to the rest, the extension and the level |
| FileNames.NextLevelNameRoundTrip | WRTS.py:809-810 | the next-level name parses back to the base and the raised level while that level has two digits and the base holds no '/' or line break |
| FileNames.NextLevelNameOverflow | WRTS.py:809-810 | from level 99 the name starts with "100_", which parses back at level 0 with "100_" kept in the base |
| FileNames.JoinConcat | WRTS.py:344 | joining two non-empty lists with '+' is joining each and putting '+' between them |
| FileNames.CombinedBaseKeepsLastTwo | WRTS.py:344-347 | the combined base always ends with the last two base names joined; it is the full join when that has at most 40 characters or there are only two names, and only the last two joined when the full join is longer and there are more than two names |
| FileNames.CombinedBaseAvoids | WRTS.py:344-347 | a character that is neither '+' nor in any base name is not in the combined base |
| FileNames.MaxLevel | WRTS.py:340 | `max(levels)` is a level of the list and no level exceeds it |
| FileNames.FirstUnsupported | WRTS.py:286-301 | the first file, in selection order, whose extension is none of ".xlsx", ".txt", ".dat"; none when all are supported |
| FileNames.FusedName | WRTS.py:273-301 | the fusion fails exactly when fewer than two files are selected (that error) or one has an unsupported extension (the error naming the extension of the first such file) |
| FileNames.FusedNameRoundTrip | WRTS.py:340-353 | the fused name parses back at the highest level of the fused lists, with type, combined base and count as its base, when no parsed base holds a line break |
| Cards.CountIfUpdate | WRTS.py:727-728 | replacing one card changes a count by the difference of what the old and new card contribute |
| Cards.CountIfAll | WRTS.py:727 | the count is the number of cards if and only if every card satisfies the condition |
| Cards.CountIfDisjoint | WRTS.py:727-729 | two counts of mutually exclusive conditions add up to at most the number of cards |
| Cards.IncorrectTotalUpdate | WRTS.py:620-621 | replacing one card changes the total number of misses by the difference of the two cards' miss counts |
| Cards.IncorrectTotalOfFresh | WRTS.py:462-478 | freshly built cards have no misses and none is completed, so both tallies start at zero |
| Scheduler.InsertAt | WRTS.py:698 | `list.insert` grows the queue by one, puts the card at the index, and taking it out gives back the old queue |
| Scheduler.RequeuePosition | WRTS.py:696-698 | with an offset in 3..6 the card lands at `min(offset, len)`, between `min(3, len)` and `min(6, len)`; the other entries keep their order |
| Scheduler.MissKeepsInRange | WRTS.py:696-703 | requeueing and appending a card of the session keep every queue entry a card of the session |
| Scheduler.NextDraw | WRTS.py:667-681 | a card handed out is not completed; with none, both queues are empty; the final queue is kept or emptied; each draw strictly shrinks the two queues together |
| Scheduler.DrawEndsIffNothingPending | WRTS.py:667-681 | the draw ends the session if and only if neither queue holds a card that is not completed |
| Scheduler.DrawTakesFirstPending | WRTS.py:676-681 | the draw hands out the first card of the main queue that is not completed, drops the completed ones before it and leaves the final queue alone |
| Scheduler.DrawRefills | WRTS.py:667-681 | once the main queue has only completed cards, the final queue becomes the main queue, is emptied, and its first card that is not completed is handed out |
| Scheduler.DrawKeepsPending | WRTS.py:667-681 | a waiting card that is not completed is handed out or stays in a queue |
| Scheduler.FinalRoundHandsOutNothing | WRTS.py:667-681 | with every waiting card in the main queue, an empty main queue makes the draw hand out nothing, whatever the final queue holds |
| Scheduler.FinalRoundExample | WRTS.py:667-681 | one card missed once and then answered correctly sits in the final queue, and the draw ends the session without showing it |
| Scheduler.IntendedDraw | WRTS.py:691-693 | the corrected draw: a card it hands out names a card of the session; once in the final round it stays there |
| Scheduler.IntendedFinalRoundRepeats | WRTS.py:691-693 | with the corrected draw, once the main queue holds only completed cards, the first card of the final queue is handed out again |
| Scheduler.IntendedMainRoundAgrees | WRTS.py:667-681 | before the final round the corrected draw is the draw as written |
| Scheduler.SessionEndsIffAllCompleted | WRTS.py:667-674 | with every waiting card queued, the draw ends the session if and only if every card is completed |
| Scheduler.FinalRoundAppend | WRTS.py:700-703 | flagging a missed card and appending it to the final queue keeps each card in the final round at most once, and flagged exactly when appended |
| Scheduler.RequeueStep | WRTS.py:689-703 | the state change of `schedule_incorrect_card` keeps the session invariant and leaves every card that is not completed in a queue |
| Scheduler.PopStep | WRTS.py:676 | popping the head into the current card keeps the invariant; a completed head leaves every waiting card queued |
| Scheduler.RefillStep | WRTS.py:669-671 | moving the final queue into the empty main queue keeps the invariant, and happens only once every card is completed |
| Scheduler.CompleteStep | WRTS.py:608-610 | completing the current card keeps the invariant with the correct tally raised by one |
| Scheduler.MissStep | WRTS.py:619-621 | a miss on the current card keeps the invariant with the miss tally raised by one |
| Scheduler.SwapKeepsPairs | WRTS.py:481 | one exchange of the shuffle keeps the multiset of pairs and the fresh state |
| Scheduler.Session.constructor | WRTS.py:461-483 | one fresh card per row, shuffled (the multiset of pairs is the rows'), the main queue holds every card, the final queue is empty, the tallies are zero |
| Scheduler.Session.NextCard | WRTS.py:655-681 | the result and the new queues are `NextDraw` of the old ones; cards and tallies are unchanged; the session ends exactly when nothing is handed out, exactly when every card is completed; with the main queue empty nothing is handed out |
| Scheduler.Session.Refill | WRTS.py:669-671 | the final queue becomes the main queue and is emptied; nothing else changes |
| Scheduler.Session.Pop | WRTS.py:676 | the head of the main queue becomes the current card |
| Scheduler.Session.ScheduleIncorrectCard | WRTS.py:689-703 | the card is requeued at `min(offset, len)`, flagged, and appended to the final queue only if it was not flagged before; the invariant holds |
| Scheduler.Session.Credit | WRTS.py:609-610 | the current card becomes completed and the correct tally rises by one |
| Scheduler.Session.Miss | WRTS.py:619-622 | the current card's miss count and the miss tally rise by one, then it is requeued |
| Scheduler.Session.MarkCorrect | WRTS.py:604-612 | the card is completed and credited only if it was not completed; then the next card is drawn |
| Scheduler.Session.MarkIncorrect | WRTS.py:614-624 | with a current card, its miss count and the miss tally rise by exactly one and it is requeued; then the next card is drawn |
| Scheduler.Session.CheckDicteeAnswer | WRTS.py:626-653 | no current card: nothing changes; otherwise the verdict is the acceptance of the stripped answer; accepted completes and credits, refused misses and requeues; then the next card is drawn |
| Scoring.RoundNearest | WRTS.py:736 | the rounding is within half of the exact quotient and is even on a tie |
| Scoring.RoundHalfEvenUnique | WRTS.py:736 | that property determines the rounding: no other integer has it |
| Scoring.RoundMonotone | WRTS.py:736 | rounding keeps the order of the dividends |
| Scoring.FirstAndOnceAtMostAll | WRTS.py:727-729 | cards never missed and cards missed once add up to at most all cards |
| Scoring.ScoreBounds | WRTS.py:727-736 | the score is between 0 and 100 |
| Scoring.ScorePerfect | WRTS.py:727-736 | a session with no card ever missed scores 100 |
| Scoring.ScoreHundredIff | WRTS.py:727-736 | below 160 cards the score is 100 if and only if no card was missed |
| Scoring.ScoreHundredWithOneMiss | WRTS.py:732-736 | 159 clean cards and one missed once give exactly 99.5 in exact arithmetic, which rounds to the even 100 |
| Scoring.MissNeverRaisesScore | WRTS.py:727-736 | a further miss on any card never raises the score |
| Scoring.MessageIsTier | WRTS.py:748-760 | away from 69 the message is the tier of how many of the thresholds 10, 30, 50, 80, 100 the score reaches |
| Scoring.ReachedMonotone | WRTS.py:748-760 | a higher score never reaches fewer thresholds |
| Scoring.MessageCases | WRTS.py:739-760 | a joke is shown if and only if the score is 69; the top message if and only if the score is at least 100 |
| Scoring.ScoreExample | WRTS.py:727-757 | three clean cards, one missed once and one missed three times score 64 and get "Good job, keep it up!" |
| Export.FlaggedMembers | WRTS.py:793 | a card is kept if and only if it is a card of the session missed at least `n` times |
| Export.FlaggedCount | WRTS.py:793 | as many cards are kept as are missed at least `n` times |
| Export.FlaggedConcat | WRTS.py:793 | the filter keeps the session order: filtering two parts in turn is filtering the whole |
| Export.FlaggedNested | WRTS.py:793 | filtering with a larger bound after a smaller one is filtering with the larger one |
| Export.FlaggedAll | WRTS.py:793 | a bound of at most 0 keeps every card |
| Export.CreateNewList | WRTS.py:793-810 | an error is reported exactly when no card is missed at least `n` times; otherwise the rows are the pairs of the kept cards in session order (as many as such cards, each one's pair), under the next-level name |
| Export.ExportRoundTrip | WRTS.py:809-810 | the written list parses back one level up with the same base name, while that level has two digits and the base holds no '/' or line break |
| Export.FlaggedExample | WRTS.py:793 | of cards missed 0, 1, 2, 0, 3 times, n = 2 keeps the third and fifth, in order |
| Export.ExportExample | WRTS.py:793-810 | that example, from level 1 of "words", writes the pairs of the third and fifth card to "02_words.xlsx" |

## Left out

- The widgets, frames, labels, message boxes and the score label are
  user interface only. The model keeps no result text.
- Reading and writing lists with pandas is file I/O and library code and
  is not modelled. This covers `load_file`, the loads and the concat of
  `fuse_selected_files`, `to_excel`, `glob` and `os.makedirs`. Of
  `create_new_list` the model keeps the file name and the rows; of
  `fuse_selected_files` it keeps only the file name, since the fused
  rows come from the concat. A failed load or write is left out.
- FileNames.FusedName: the yes/no question when the lists have different
  column counts is a user dialog. Its cancel path is not modelled:
  `sameColumns` is the column-count test, and when it is false the model
  takes the user's answer to be "yes" (an "FI" name). The word count of
  the concatenated frame is a parameter.
- The `self.after(1200, self.next_card)` deferral and the double-click
  race it opens in dictee mode are event-loop timing. The model draws
  the next card at once.
- Scheduler.Session.CheckDicteeAnswer: an accepted answer credits the
  card without `mark_correct`'s guard, as the code does. Because of the
  precondition `Ready()`, the current card is never completed there, so
  the double credit the race allows is not reachable in the model.
- The choice of source and target language, and the check that they
  differ, is settings UI. The model takes the row pairs directly.
- The `str()` coercion of data-frame cells is left out, since cells are
  already strings here.
- The unused `delayed_scheduled` field is left out.
- Actual randomness is replaced by the parameters described above.
- Scoring.ScoreOf: the score is computed exactly over the rationals and
  then rounded half to even. The float error of `raw_score` in Python is
  not modelled, so near a tie the rounding may differ from the app's: for
  159 cards right the first time and one missed once, the float value is
  99.49999999999999 and the app shows 99, while the exact 99.5 rounds to
  the even 100 in the model (`Scoring.ScoreHundredWithOneMiss`); for 8 cards
  of which 4 are right the first time, 3 missed once and 1 missed twice,
  the float value is 57.49999999999999 and the app shows 57, while the
  exact 57.5 rounds to 58 in the model.
- Grading.Lower: lower-casing covers ASCII and the Latin-1 capitals, one
  character for one. Python's `str.lower()` covers all of Unicode and can
  change the length (`'İ'.lower()` has two characters).
  Python's full Unicode case mapping is not modelled.
- FileNames.HasLevelPrefix: `\d` is ASCII digits only. Python's `re` also
  accepts other Unicode decimal digits.
- FileNames.Basename splits on '/' only, as POSIX `os.path` does.
- Scheduler.Session.NextCard: when the session ends, the model
  sets `ended`. It does not model the rest of `end_session` as a state
  change; its score and message are the functions of `Scoring`.

## Findings

| source | as written | input that shows it | evidently intended | confidence | as-written member | corrected member |
|---|---|---|---|---|---|---|
| WRTS.py:667-681, 691-703 | in sequential use a miss always puts the card back into the main queue, so by the time the main queue is empty every card is completed; the refill from the final queue then hands out only completed cards, which the draw skips, and the session ends without the final round | one card, missed once and then answered correctly: it sits in the final queue, and the next draw ends the session without showing it | missed words are asked once more at the end of the session (WRTS.py:69, 691-693) | medium; not executed | Scheduler.FinalRoundHandsOutNothing, Scheduler.FinalRoundExample | Scheduler.IntendedFinalRoundRepeats, Scheduler.IntendedDraw |

`Scheduler.Session` keeps the behaviour as written, since that is what
the app does; `Scheduler.IntendedMainRoundAgrees` shows the corrected
draw differs from it only in the final round. The double-click race of
dictee mode, which the model leaves out, can pop a missed card that is
not completed without showing it; that card then waits only in the final
queue, and the final round does show it.
