# OffByOneBlog question-and-answer core, modelled in Dafny

OffByOneBlog is a Django question-and-answer site. Users ask questions with
tags, answer them, vote answers and questions up or down, and the asker
accepts one answer. This project models the pure rules behind those pages.
Every database table is an immutable sequence of rows, and every save is a
function from the old table to the new one.

- `base.dfy` (`Base`): `Option`, `Result`, the error kinds, and the `get`
  lookup of a manager (one match, `DoesNotExist`, `MultipleObjectsReturned`).
- `tables.dfy` (`Tables`): rows with positive auto-increment keys,
  `Model.save` as update-or-insert, and lookup by key.
- `publishing.dfy` (`Publishing`): the `Publishable` timestamps and the
  clock behind `timezone.now()`.
- `records.dfy` (`Records`): the records of the `qanda` app, the
  uniqueness constraints and the store invariant, `title_as_hyphen`, and
  `can_accept_answers`.
- `scores.dfy` (`Scores`): the `score`, `ans_score` and profile score
  annotations as SQL `SUM` with `Coalesce(..., 0)`, and the join sums.
- `acceptance.dfy` (`Acceptance`): `Answer.save` and the single accepted
  answer rule.
- `voting.dfy` (`Voting`): vote get-or-blank, the vote form choices, vote
  creation, the ownership check on vote updates, and the vote form address.
- `sorting.dfy` (`Sorting`): a stable descending sort and top-`n`
  truncation, which stand in for `order_by('-key')[:n]`.
- `forms.dfy` (`Forms`): `QuestionForm.is_valid`, with comma splitting,
  Python `strip` and `lower`, the tag count rule and error marking.
- `listing.dfy` (`Listing`): the home page sort modes and side lists, and
  the user page tabs.
- `questions.dfy` (`QuestionViews`): asking a question (tag find-or-create,
  SAVE and PREVIEW) and the question page (view counter, answer list, vote
  forms).
- `legacy.dfy` (`Legacy`): the older `qa` app, whose scores are NULL when
  there are no votes.

## Model

| member | source | states |
|---|---|---|
| Base.Get | django/qanda/models.py:168-169 | a manager `get` returns the single matching row, raises DoesNotExist exactly when nothing matches, and raises MultipleObjectsReturned exactly when two rows match |
| Tables.Write | django/qanda/models.py:80 | `Model.save` updates the row with the instance's key in place; without a key it appends a row under a key not yet in use; no other row changes and keys stay unique |
| Publishing.CreatedNeverChanges | django/qanda/models.py:75-80 | after the first save, a second save keeps `created` and moves `modified` strictly past both earlier readings |
| Publishing.Stamp | django/qanda/models.py:75-80 | `created` is set only when the record has no key and is never changed afterwards; `modified` is a fresh clock reading on every save and comes after `created` |
| Records.TitleAsHyphen | django/qanda/models.py:121-122 | every space becomes `-`, every other character is kept in place, the length is unchanged, and no space remains |
| Records.TitleAsHyphenIdempotent | django/qanda/models.py:121-122 | hyphenating a title that is already hyphenated changes nothing |
| Records.CanAcceptAnswers | django/qanda/models.py:115-116 | the acceptance forms are offered exactly when the visitor is signed in as the asker |
| Scores.SumOver | django/qanda/models.py:38 | a score is 0 when no vote targets the question or answer |
| Scores.QuestionScore | django/qanda/models.py:38 | a question nobody voted on scores 0, not NULL; its bounds and the up-minus-down count are stated by Scores.QuestionScoreBounds |
| Scores.AnswerScore | django/qanda/models.py:63-66 | an answer nobody voted on scores 0, not NULL; its bounds are stated by Scores.AnswerScoreBounds |
| Scores.JoinSum | django/qanda/models.py:48-51 | the join sums to 0 when it selects no answer; Scores.JoinSumByVotes relates it to one sum over the votes |
| Scores.AnswerAggregate | django/qanda/models.py:48-51 | a question without answers has `ans_score` 0; Scores.AnswerAggregateByVotes states it is the sum of the votes on its answers |
| Scores.ProfileScore | django/qanda/models.py:210-216 | a user who wrote no answer scores 0; Scores.ProfileScoreByVotes states it is the sum of the votes on that user's answers |
| Scores.SumIsUpsMinusDowns | django/qanda/models.py:86-93 | with values limited to 1 and -1, a score is the number of up votes minus the number of down votes, and lies between minus and plus the number of votes |
| Scores.QuestionScoreBounds | django/qanda/models.py:44-47 | a question's score lies between minus and plus its vote count and is 0 when it has no votes |
| Scores.AnswerScoreBounds | django/qanda/models.py:63-66 | an answer's score lies between minus and plus its vote count and is 0 when it has no votes |
| Scores.JoinSumByVotes | django/qanda/models.py:48-51 | summing each selected answer's votes equals summing once over the votes on any selected answer, given unique answer keys |
| Scores.AnswerAggregateByVotes | django/qanda/models.py:48-51 | a question's `ans_score` is the sum of the votes on all its answers, and 0 when none of them has a vote |
| Scores.ProfileScoreByVotes | django/qanda/models.py:210-216 | a profile's score is the sum of the votes on every answer that user wrote, and 0 when none of them has a vote |
| Acceptance.PersistAnswer | django/qanda/models.py:175 | saving an answer stamps it and writes it; only the row with its key changes, or one fresh row is appended |
| Acceptance.SaveAnswer | django/qanda/models.py:164-175 | an accepted save fails exactly when two answers of the question are already accepted; otherwise the answer is stored and the clock moves on |
| Acceptance.SaveAnswerFrame | django/qanda/models.py:164-175 | a successful save changes only the saved answer and, for an accepted save, the previously accepted answer of the same question, which changes only its flag and `modified` |
| Acceptance.SaveAnswerSoleAccepted | django/qanda/models.py:164-175 | after an accepted save, the saved answer is the only accepted answer of its question |
| Acceptance.SaveUnacceptedTouchesNothingElse | django/qanda/models.py:166 | a save with `accepted` false changes no other answer |
| Acceptance.SaveAnswerKeepsInvariant | django/qanda/models.py:164-175 | from a table with at most one accepted answer per question, every save succeeds and keeps that invariant and unique keys |
| Acceptance.UpdateAcceptance | django/qanda/views.py:202-207 | posting the acceptance form for a missing answer is a 404; otherwise the answer is saved with the posted flag and keeps its question, author, body and `created`, the save fails only when its question already has two accepted answers, no row changes beyond what `Answer.save` allows (the frame of Acceptance.SaveAnswerFrame), and on a valid table the save succeeds and keeps one accepted answer per question |
| Acceptance.AnyoneCanAccept | django/qanda/views.py:202-207 | as written, a signed-in user who did not ask the question gets the same accepted save as the asker |
| Acceptance.UpdateAcceptanceIntended | django/qanda/models.py:115-116 | the corrected view is a 404 for a missing answer or question, PermissionDenied for anyone but the asker, and for the asker exactly the written save |
| Acceptance.IntendedOnlyAskerAccepts | django/qanda/models.py:115-116 | under the corrected view an acceptance succeeds exactly when the requester asked the question, and then sets the flag and keeps one accepted answer per question |
| Voting.GetVoteOrBlank | django/qanda/models.py:18-24 | returns the user's stored vote on the target, or else a new keyless vote by that user on that target with no value; it fails exactly when two such votes exist |
| Voting.GetVoteOrBlankUnderUniqueness | django/qa/models.py:12-18 | under the (user, target) uniqueness constraint the lookup never fails, and returns the stored vote exactly when one exists |
| Voting.ParseVoteChoice | django/qanda/forms.py:71-75 | the vote forms accept only the choices 1 and -1 |
| Voting.ChoiceRoundTrip | django/qanda/forms.py:116-120 | a choice's text parses back to the choice, and only choice texts parse |
| Voting.CreateVote | django/qanda/views.py:123-136 | a vote is rejected by the form exactly when the choice is not 1 or -1 or the target does not exist, and breaks uniqueness exactly when the user already voted on the target; otherwise one row with the parsed value is appended under a fresh key and the vote table stays valid |
| Voting.CreateVoteScores | django/qanda/views.py:169-182 | a created vote adds exactly its value to the target's score and leaves every other score alone |
| Voting.BlankThenStored | django/qanda/models.py:18-24 | before voting the lookup offers a blank vote; after voting it returns the stored vote |
| Voting.GetOwnedVote | django/qanda/views.py:143-147 | an update of an absent vote is a 404, of another user's vote is PermissionDenied, and for the owner returns the stored vote unchanged |
| Voting.UpdateVote | django/qanda/views.py:189-193 | the owner's update changes only the value of that vote; nothing else in the table changes |
| Voting.VoteFormUrl | django/qanda/views.py:66-71 | the vote form posts to the update address when the vote has a key and to the create address otherwise |
| Voting.VoteUrlMatchesStore | django/qanda/views.py:62-73 | the update address is offered exactly when the visitor has voted on the target |
| Sorting.SortDesc | django/qanda/views.py:229-231 | the order is a permutation of the rows; Sorting.SortDescSorted states the keys never increase |
| Sorting.SortDescSorted | django/qanda/views.py:229-231 | ordering by a key descending yields a permutation whose keys never increase |
| Sorting.TopN | django/qanda/views.py:218-221 | `[:n]` keeps `n` rows, or all when there are fewer, drawn from the input; Sorting.TopNIsTop states they are the top ones |
| Sorting.TopNIsTop | django/qanda/views.py:218-221 | the first `n` of a descending order leave out nothing ranked above the last one shown |
| Forms.Split | django/qanda/forms.py:37 | splitting on `,` yields one more piece than there are commas, no piece holds a comma, and joining the pieces gives back the input |
| Forms.Strip | django/qanda/forms.py:40 | the stripped piece is no longer than the piece and neither starts nor ends with whitespace; Forms.StripIsInfix states what it keeps |
| Forms.StripIsInfix | django/qanda/forms.py:40 | `strip` keeps an infix of the piece, and everything it drops before and after that infix is whitespace |
| Forms.StripIdempotent | django/qanda/forms.py:40 | stripping whitespace twice is the same as once |
| Forms.Lower | django/qanda/forms.py:41 | lowercasing keeps the length, maps each character by itself, and leaves no capital letter |
| Forms.LowerIdempotent | django/qanda/forms.py:41 | lowercasing twice is the same as once |
| Forms.CleanTags | django/qanda/forms.py:40-41 | each piece becomes its stripped then lowercased self, in order, one for one |
| Forms.MarkErrors | django/qanda/forms.py:51-54 | every field with an error gets ` is-danger` appended to its class, other classes stay, and a form without errors is unchanged |
| Forms.IsValid | django/qanda/forms.py:30-55 | a form failing base validation is left alone; tags are accepted exactly for 2 or 3 raw pieces, with each piece stripped then lowercased in order; fewer than 2 pieces add the "at least two" error, more than 4 the "more than six" error, and every field with an error gets ` is-danger` appended to its class |
| Forms.FourTagsRejectedSilently | django/qanda/forms.py:38-49 | four tags are rejected with no error attached to the form |
| Forms.IsValidIntended | django/qanda/forms.py:15-18 | the corrected rule accepts 2 to 4 tags, as the placeholder says, and every rejection carries an error |
| Forms.IntendedDiffersOnlyOnFour | django/qanda/forms.py:30-55 | the written and the corrected rule agree on every input except exactly four tags |
| Listing.SortModeOf | django/qanda/views.py:225-232 | `answered` picks the answer score order, `newest` keeps the default newest-first order, and any other value or none picks the score order |
| Listing.WithAnswerScore | django/qanda/models.py:41-59 | every question is listed once, in table order, with its own score and `ans_score`; Listing.HomeSortModes states the orders built from it |
| Listing.HomeQuestions | django/qanda/views.py:225-232 | the home page lists every question once, sorted by the key the sort mode picks |
| Listing.HomeSortModes | django/qanda/views.py:228-231 | each of the three sort parameters yields the order it names, over all questions |
| Listing.HomeSideLists | django/qanda/views.py:216-223 | the side lists hold at most five answers and five profiles, drawn from the store |
| Listing.WithUserScore | django/qanda/models.py:210-216 | every profile is listed once, in table order, with its user's score; Listing.HomeSideListsAreTop states the best five are taken from it |
| Listing.HomeSideListsAreTop | django/qanda/views.py:218-221 | the side lists are the newest answers and the highest-scoring users: nothing left out ranks above the last one shown |
| Listing.ShortensTabs | django/qanda/views.py:293 | the lists are shortened exactly when the tab is neither `questions` nor `answers` |
| Listing.UserAnswers | django/qanda/views.py:286-287 | `filter(user=user)` keeps every stored answer by the user as often as it is stored and no other answer, and keeps keys unique |
| Listing.AnswersOf | django/qanda/views.py:286-287 | the listed rows are exactly the filtered answers of Listing.UserAnswers, so each stored answer by the user appears once and nothing else does; each carries its score |
| Listing.UserQuestions | django/qanda/views.py:288-290 | `filter(user=user)` keeps every stored question by the user as often as it is stored and no other question, and keeps keys unique |
| Listing.QuestionsOf | django/qanda/views.py:288-290 | the listed rows are exactly the filtered questions of Listing.UserQuestions, so each stored question by the user appears once and nothing else does; each carries its score |
| Listing.TabList | django/qanda/views.py:286-295 | a tab is sorted by score descending and drawn from its rows; unshortened it holds all of them, shortened it holds the first five and none left out scores above the last one shown |
| Listing.AnswersOfListedOnce | django/qanda/views.py:286-287 | with unique answer keys, no two entries of the user's answer list are the same answer |
| Listing.QuestionsOfListedOnce | django/qanda/views.py:288-290 | with unique question keys, no two entries of the user's question list are the same question |
| Listing.UserDetail | django/qanda/views.py:281-297 | the user page orders answers and questions by score descending; without a tab each list is cut to the five best, so no left-out entry scores above the last one shown, and with a tab it holds all of them |
| QuestionViews.PersistQuestion | django/qanda/models.py:140-144 | saving a question stamps it and writes it; only the row with its key changes, or one fresh row is appended |
| QuestionViews.FindOrCreateTag | django/qanda/views.py:40-43 | an existing tag with the name is reused, otherwise one new tag with that name is appended; the lookup fails exactly when two tags share the name |
| QuestionViews.FindOrCreateTagKeepsUnique | django/qanda/models.py:155 | one find-or-create keeps tag names and keys unique |
| QuestionViews.FindOrCreateTags | django/qanda/views.py:39-45 | the loop fails only on a duplicated tag name and only ever appends tags; QuestionViews.FindOrCreateTagsCorrect states which |
| QuestionViews.FindOrCreateTagsCorrect | django/qanda/views.py:39-45 | with unique names the loop never fails, every name gets its tag, only new names create tags, and the keys attached are exactly those of the tags named |
| QuestionViews.SaveNewQuestion | django/qanda/views.py:38-49 | the asked question is appended under a fresh key with the form's user, title and body, no views, the attached tags, and both timestamps set |
| QuestionViews.CreateQuestion | django/qanda/views.py:35-56 | SAVE stores the new question and leaves answers, votes and profiles alone; PREVIEW returns the title and body and stores nothing; any other action is a bad request |
| QuestionViews.CreateQuestionTags | django/qanda/views.py:39-47 | after SAVE the question's tag set is exactly the tags named in the input, and tag names stay unique |
| QuestionViews.CreateQuestionKeepsValid | django/qanda/views.py:35-56 | asking a question keeps every store invariant |
| QuestionViews.ViewQuestion | django/qanda/views.py:76-77 | rendering a question raises `viewed` by exactly one and changes nothing else but `modified`; a missing question is a 404 |
| QuestionViews.ViewQuestionKeepsValid | django/qanda/views.py:76-77 | counting a view keeps every store invariant, and two views count two |
| QuestionViews.VoteUrlFor | django/qanda/views.py:94-101 | a vote form is offered only to a signed-in visitor, and is the update form exactly when they have voted |
| QuestionViews.AnswerItems | django/qanda/views.py:103-114 | each listed answer carries its score and, for a signed-in visitor, the vote form address its stored vote calls for |
| QuestionViews.QuestionDetail | django/qanda/views.py:75-120 | the question page counts the view, shows the question's score, offers acceptance to the asker only, and lists the answers accepted first |
| QuestionViews.DetailListsAnswersAcceptedFirst | django/qanda/models.py:177-178 | the page lists every answer of the question exactly once, no other answer, and accepted ones first |
| Legacy.NewLegacyPub | django/qa/models.py:35-40 | a new legacy record starts with `votes` 0 and no timestamps |
| Legacy.LegacySave | django/qa/models.py:42-47 | the legacy save sets `created` only when there is no key and `modified` on every save, and keeps `votes` |
| Legacy.SavesKeepCreated | django/qa/models.py:42-47 | any number of later saves keep `created` and `votes`, and move `modified` forward |
| Legacy.LegacySum | django/qa/models.py:21-32 | the legacy score is NULL exactly when no vote on the target carries a value, and otherwise equals the `qanda` score |
| Legacy.LegacyScore | django/qa/models.py:21-32 | the legacy score with NULL read as 0 is the `qanda` score, and it is NULL exactly when no vote on the target has a value |
| Legacy.LegacyScoreCoalesced | django/qa/models.py:24 | the `qanda` score is the legacy one with NULL read as 0; in a legacy table the score is NULL exactly when there are no votes |
| Legacy.LegacyAddVote | django/qa/models.py:53-60 | a legacy vote fails validation exactly when its value is outside 1 and -1 or its target does not exist, breaks uniqueness exactly when the user already voted on the target, and is otherwise appended under a fresh key |
| Legacy.LegacyAddVoteKeepsTable | django/qa/models.py:96-106 | adding legacy votes keeps values in {1, -1} and one vote per user and target, and moves the target's score by the added value |

## Left out

- The search index upsert in `Question.save` and the search view: an external service.
- Sign-up, account activation, tokens and the e-mail tasks: I/O and code this model cannot see.
- The `Profile` post-save signal, the cache and form-colouring mixins, URL routing and admin registration: framework plumbing.
- Template rendering, pagination, redirect targets and the login-required checks: presentation and framework glue.
- `Votable.voten_on` (`auto_now`): a timestamp nothing reads.
- The `tag_model.save()` inside the tag loop: it writes an unchanged tag row again, which has no effect on the model's state.
- The comment records of both apps: no rule of the core reads or writes them.
- Publishing.Stamp: `timezone.now()` is modelled as a clock that moves strictly forward on every reading; the real clock only never goes back.
- Forms.Lower: lowercases ASCII letters only; Python's full Unicode case mapping is not modelled.
- Sorting.SortDesc: keeps table order among equal keys; SQL leaves the order of ties unspecified.
- Listing.UserDetail: the user is given by key; the lookup by username is not modelled.
- QuestionViews.ViewQuestion and QuestionViews.QuestionDetail: the question page, the home page and the user page are wrapped in `cache_page` by `CacheVaryOnCookieMixin` (django/qanda/mixins.py:35-40). A cached hit returns the stored response without running `get_context_data`, so `viewed` counts renders of the page, not requests; the model has no cache and counts every call.
- Rows with key 0: keys are positive, as database auto-increment keys are.
- Acceptance.SaveAnswerFrame: requires unique answer keys, which the primary key guarantees.
- Voting.UpdateVote: requires unique vote keys, which the primary key guarantees.
- QuestionViews.ViewQuestion: requires unique question keys, which the primary key guarantees.
- QuestionViews.CreateQuestion: when a tag lookup fails after the question was inserted, the model returns the error and drops the store, so the question already inserted before the failure is not kept. This cannot happen while tag names are unique.
- QuestionViews.QuestionDetail: on a failing vote lookup the view counter's save is not kept, for the same reason; it cannot happen under the vote uniqueness constraints.
- Legacy.LegacyAddVote: the legacy app routes only `TestView` (django/qa/urls.py:6), and no code path that saves a legacy vote is part of this model. The model is a validated save: `full_clean` followed by the insert. A plain `Model.save()` skips `full_clean`, so the 1/-1 rule then holds only for validated saves, while (user, target) uniqueness is still enforced by the database.
- Voting.CreateVote and Legacy.LegacyAddVote: the user foreign key is not checked, because the user table is not modelled; the signed-in user always exists.
- QuestionViews.FindOrCreateTag: `Tag.name` has `max_length=40` (django/qanda/models.py:149), but the form puts no limit on a tag's length (django/qanda/forms.py:15-18). On a database that enforces the length, a longer tag makes the create raise after the question was inserted (django/qanda/views.py:43); the model creates the tag whatever its length.
- QuestionViews.ViewQuestion: `viewed` is a `PositiveIntegerField` (django/qanda/models.py:103), whose database range is bounded; the model counts without a bound.
- AnswerAcceptanceForm is not part of this model; it is taken to carry only the `accepted` field, which the acceptance view saves through `Answer.save`.

## Findings

| source | as written | input that shows it | evidently intended | confidence | as-written member | corrected member |
|---|---|---|---|---|---|---|
| django/qanda/views.py:202-207 | `UpdateAnswerAcceptanceView` saves the posted flag for any signed-in user; only the question page hides the forms from others (django/qanda/views.py:88-92) | a signed-in user who did not ask the question posts `accepted=true` for one of its answers: the answer becomes accepted | only the asker, who passes `can_accept_answers`, may change acceptance | medium; not executed | Acceptance.AnyoneCanAccept | Acceptance.UpdateAcceptanceIntended |
| django/qanda/forms.py:38-49 | tags are accepted when `2 <= len(tags) < 4`; a count of exactly 4 takes neither error branch | `"a,b,c,d"`: the form is invalid and no error message is attached | 2 to 4 tags accepted, as the field's placeholder "between 2 and 4 tags" says, and every rejection explained | high; not executed | Forms.FourTagsRejectedSilently | Forms.IsValidIntended |
