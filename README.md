# Polls models in Dafny

A model of the data layer of a small Django polling app
(`premiosplatziapp/polls/models.py`): the two records `Question` and
`Choice`, their string forms, the default vote count of a new choice, the
foreign key from a choice to its question with its reverse accessor
`question.choices` and its `on_delete=CASCADE` rule, and the one piece of
logic, `Question.was_published_recently`, which decides whether a question
was published within the trailing day.

- `instants.dfy` (`Instants`): instants as whole microseconds since an
  epoch, and the durations `SECOND` … `DAY`. Timezone-aware datetimes
  compare as absolute instants, so zones play no part.
- `models.dfy` (`Models`): the records, `NewChoice`, the single-reading
  window `InWindow(now, pub)` (`now - DAY <= pub <= now`) and
  `WasPublishedRecently(q, t1, t2)`. The source reads the clock twice:
  `t1` is the reading on line 25 that fixes the lower limit and `t2` the
  reading on line 26 compared with the upper bound. Both are parameters.
- `recency.dfy` (`Recency`): the boundary behaviour the test suite relies
  on, and how the two-reading predicate relates to the single-reading
  window.
- `cascade.dfy` (`Cascade`): the stored rows as sequences in insertion
  order, `ChoicesOf` (the reverse accessor), and `DeleteQuestion` with the
  cascade.

With ordered readings `t1 <= t2` the predicate accepts exactly
`[t1 - DAY, t2]`. That is the union of the single-reading windows of every
instant between the two readings (`RecentIffSomeReadingAccepts`). So while
the clock moves forward, the second clock read can only widen what is
accepted. It never rejects a date that either reading alone accepts
(`DriftNeverRejects`), and when the clock advances between the reads it
accepts dates that each single reading rejects (`DriftWidens`). The window
is wider by `t2 - t1`, and there are no false negatives.

A wall clock can also be stepped back between the two reads (`t2 < t1`).
The accepted set `[t1 - DAY, t2]` is then only the overlap of the two
single-reading windows. In that case the double read does reject dates
that a single reading accepts; a date equal to the first reading is one
(`DriftBackRejects`).

The test `test_was_published_recently_with_past_questions` dates its
question 23h59m59s before its own clock read `t0`. It holds exactly when
at most one second passes between that read and the predicate's first
read (`AlmostADayAgoRecentIff`).

## Model

| member | source | states |
|---|---|---|
| `Models.NewChoice` | premiosplatziapp/polls/models.py:29-35 | a choice created without `votes` has `votes == 0`, the given foreign key and the given text |
| `Models.WasPublishedRecently` | premiosplatziapp/polls/models.py:24-26 | with one reading (`t1 == t2`) it is exactly the inclusive trailing-day window; never true for a date after the second reading; true for any date some instant between the readings has in its window |
| `Recency.WindowBoundaries` | premiosplatziapp/polls/models.py:25-26 | both ends of the single-reading window are inclusive (`pub == now`, `pub == now - DAY`); one microsecond beyond either end is outside; `now - 23h59m59s` is inside and `now - (1 day + 1 s)` is outside |
| `Recency.RecentIffSomeReadingAccepts` | premiosplatziapp/polls/models.py:25-26 | for `t1 <= t2` the predicate holds iff `t1 - DAY <= pub <= t2`, iff some instant in `[t1, t2]` has `pub` in its single-reading window |
| `Recency.DriftNeverRejects` | premiosplatziapp/polls/models.py:25-26 | for `t1 <= t2`, a date in the window of `t1` or of `t2` is accepted |
| `Recency.DriftWidens` | premiosplatziapp/polls/models.py:25-26 | for `t1 < t2` there are dates accepted that the window of `t1` alone rejects, and dates accepted that the window of `t2` alone rejects |
| `Recency.DriftBackRejects` | premiosplatziapp/polls/models.py:25-26 | for `t2 < t1` (clock stepped back) some date in the window of `t1` is rejected |
| `Recency.FutureQuestionNotRecent` | premiosplatziapp/polls/models.py:26 | a date later than the second reading is never recent |
| `Recency.ThirtyDaysAheadNotRecent` | premiosplatziapp/polls/tests.py:15-23 | a date 30 days after an earlier reading `t0` is not recent while fewer than 30 days pass before the second reading |
| `Recency.PastDateRecentIff` | premiosplatziapp/polls/tests.py:42-50 | a date at or before both readings is recent iff the first reading is at most one day after it; so a date equal to a just-taken reading is recent |
| `Recency.AlmostADayAgoRecentIff` | premiosplatziapp/polls/tests.py:25-39 | a date 23h59m59s before a reading `t0` is recent iff at most one second separates `t0` from the first reading |
| `Recency.OverADayAgoNotRecent` | premiosplatziapp/polls/tests.py:30-40 | a date one day and one second before a reading `t0` is never recent when the first reading is not before `t0` |
| `Recency.RecencyDependsOnDateOnly` | premiosplatziapp/polls/models.py:24-26 | two questions with the same `pub_date` get the same answer whatever their id and text |
| `Recency.QuestionStrIsText` | premiosplatziapp/polls/models.py:16-17 | the string form of a question is its `question_text` |
| `Recency.ChoiceStrIsText` | premiosplatziapp/polls/models.py:37-38 | the string form of a new choice is the text it was created with |
| `Cascade.ChoicesOf` | premiosplatziapp/polls/models.py:30-33 | `question.choices` holds exactly the stored choices whose foreign key is that question, and no more rows than are stored |
| `Cascade.ChoicesNotOf` | premiosplatziapp/polls/models.py:30-33 | the choices kept by the cascade are exactly those whose foreign key is another question |
| `Cascade.QuestionsNotWithId` | premiosplatziapp/polls/models.py:12-14 | the questions kept by a delete are exactly those with another primary key |
| `Cascade.DeleteQuestion` | premiosplatziapp/polls/models.py:30-33 | deleting a question removes exactly that question and exactly the choices that refer to it; every other question and choice stays |
| `Cascade.DeleteLeavesNoChoices` | premiosplatziapp/polls/models.py:30-33 | after the delete the deleted question's `choices` is empty |
| `Cascade.NoChoicesOfAbsentKey` | premiosplatziapp/polls/models.py:30-33 | a question no stored choice refers to has no choices |
| `Cascade.CascadePartitions` | premiosplatziapp/polls/models.py:30-33 | the choices the cascade deletes and the ones it keeps together are the stored choices as a multiset: nothing lost, nothing duplicated |
| `Cascade.CascadeKeepsOtherChoices` | premiosplatziapp/polls/models.py:30-33 | after deleting one question, every other question's `choices` is unchanged, in the model's stored order |
| `Cascade.ChoicesOfAppend` | premiosplatziapp/polls/models.py:30-33 | the reverse accessor over two batches of rows is the accessor over each, concatenated |
| `Cascade.AddedChoiceIsListed` | premiosplatziapp/polls/models.py:30-35 | a choice created for a question joins that question's `choices` (last, in the model's stored order); other questions' `choices` do not change |
| `Cascade.DeletePreservesReferences` | premiosplatziapp/polls/models.py:30-33 | if every choice's foreign key names a stored question before a delete, the same holds after it |
| `Cascade.DeleteIdempotent` | premiosplatziapp/polls/models.py:30-33 | deleting the same question twice is the same as deleting it once |
| `Cascade.NotOfIdempotent` | premiosplatziapp/polls/models.py:30-33 | applying the cascade filter a second time changes nothing |
| `Cascade.NotWithIdIdempotent` | premiosplatziapp/polls/models.py:12-14 | removing the same primary key a second time changes nothing |

## Left out

- `timezone.now()` is a clock call: its two readings are the parameters `t1` and `t2`. The model does not require `t1 <= t2`, because a wall clock can be stepped back; the lemmas that need ordered readings say so.
- `pub_date` comparison errors: on line 26 a question whose `pub_date` is unset (`None`), or holds a naive datetime while the clock is timezone-aware, makes the comparison raise `TypeError`. In the model `pubDate` is always an `Instant`, so that error path is not modelled.
- Row order: the source declares no ordering for `Choice`, so the database may return `question.choices` in any order. The model keeps rows in insertion order as its own choice. The order parts of `Cascade.CascadeKeepsOtherChoices` and `Cascade.AddedChoiceIsListed` hold only in the model; their membership and multiplicity parts are what the source promises.
- Datetime range: Python datetimes span years 1 to 9999 and subtracting a day near the lower end raises `OverflowError`. Instants here are unbounded integers, so that error path is not modelled.
- `max_length=200` on both text columns is enforced by the database and forms, not by this code; `Models.FitsColumn` names the bound and nothing checks it.
- `votes` is an `IntegerField`, whose range is set by the database backend; the model uses an unbounded `int`.
- `DateTimeField` storage, primary-key assignment and the rest of ORM persistence: the store is a pair of sequences, and a question's `id` is a plain field.
- The `@admin.display` decorator on `was_published_recently` is admin-page presentation only.
- Deleting is modelled by primary key. The ORM also deletes in bulk and sends signals; neither is modelled.
- `was_published_recently` and the `__str__` methods assign to no field. As pure functions in the model they cannot change a record, so no lemma states it.
- `premiosplatziapp/polls/views.py`: the four handlers return fixed text wrapped in an HTTP response and hold no logic.
- `premiosplatziapp/polls/tests.py` is a test harness; its three tests appear only as the `Recency` lemmas above.
