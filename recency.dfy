/** What `was_published_recently` promises, and how its two clock readings
    relate to the single-reading window. */
module Recency {
  import opened Instants
  import opened Models

  /** Both ends of the single-reading window are inclusive, one microsecond
      beyond either end is outside, and the two offsets the test suite uses
      fall on either side of the lower end. */
  lemma WindowBoundaries(now: Instant)
    ensures InWindow(now, now)
    ensures InWindow(now, now - DAY)
    ensures !InWindow(now, now - DAY - MICROSECOND)
    ensures !InWindow(now, now + MICROSECOND)
    ensures InWindow(now, now - (23 * HOUR + 59 * MINUTE + 59 * SECOND))
    ensures !InWindow(now, now - (DAY + SECOND))
  {
  }

  /** With ordered readings the predicate accepts exactly the dates that some
      single reading taken between the two would accept: the window is
      `[t1 - DAY, t2]`, the union of the windows ending in `[t1, t2]`. */
  lemma RecentIffSomeReadingAccepts(q: Question, t1: Instant, t2: Instant)
    requires t1 <= t2
    ensures WasPublishedRecently(q, t1, t2) <==> t1 - DAY <= q.pubDate <= t2
    ensures WasPublishedRecently(q, t1, t2) <==>
              exists t :: t1 <= t <= t2 && InWindow(t, q.pubDate)
  {
    if WasPublishedRecently(q, t1, t2) {
      var t := if q.pubDate < t1 then t1 else q.pubDate;
      assert t1 <= t <= t2 && InWindow(t, q.pubDate);
    }
  }

  /** Clock drift never rejects a date that the first or the second reading
      alone would accept. */
  lemma DriftNeverRejects(q: Question, t1: Instant, t2: Instant)
    requires t1 <= t2
    ensures InWindow(t1, q.pubDate) ==> WasPublishedRecently(q, t1, t2)
    ensures InWindow(t2, q.pubDate) ==> WasPublishedRecently(q, t1, t2)
  {
  }

  /** When the clock advances between the readings, the predicate accepts a
      date the first reading alone rejects, and one the second reading alone
      rejects: drift only widens the window. */
  lemma DriftWidens(t1: Instant, t2: Instant)
    requires t1 < t2
    ensures exists q: Question :: WasPublishedRecently(q, t1, t2) && !InWindow(t1, q.pubDate)
    ensures exists q: Question :: WasPublishedRecently(q, t1, t2) && !InWindow(t2, q.pubDate)
  {
    var late := Question(0, "", t2);
    assert WasPublishedRecently(late, t1, t2) && !InWindow(t1, late.pubDate);
    var early := Question(0, "", t1 - DAY);
    assert WasPublishedRecently(early, t1, t2) && !InWindow(t2, early.pubDate);
  }

  /** When the clock is stepped back between the readings, the predicate
      rejects a date that the first reading alone accepts. */
  lemma DriftBackRejects(t1: Instant, t2: Instant)
    requires t2 < t1
    ensures exists q: Question :: InWindow(t1, q.pubDate) && !WasPublishedRecently(q, t1, t2)
  {
    var now := Question(0, "", t1);
    assert InWindow(t1, now.pubDate) && !WasPublishedRecently(now, t1, t2);
  }

  /** A question dated after the second reading is never recent. */
  lemma FutureQuestionNotRecent(q: Question, t1: Instant, t2: Instant)
    requires q.pubDate > t2
    ensures !WasPublishedRecently(q, t1, t2)
  {
  }

  /** The future-question test: the date is 30 days after a reading `t0`
      taken before the predicate's readings; it is not recent as long as
      fewer than 30 days pass before the second reading. */
  lemma ThirtyDaysAheadNotRecent(q: Question, t0: Instant, t1: Instant, t2: Instant)
    requires q.pubDate == t0 + 30 * DAY
    requires t0 <= t1 <= t2 && t2 - t0 < 30 * DAY
    ensures !WasPublishedRecently(q, t1, t2)
  {
  }

  /** A date at or before both readings is recent exactly when the first
      reading is at most one day after it; in particular a date equal to a
      reading `t0` taken just before the predicate runs (the
      present-question test) is recent. */
  lemma PastDateRecentIff(q: Question, t1: Instant, t2: Instant)
    requires q.pubDate <= t1 <= t2
    ensures WasPublishedRecently(q, t1, t2) <==> t1 - q.pubDate <= DAY
  {
  }

  /** The first past-question test: the date is 23h59m59s before a reading
      `t0`. It is recent exactly when at most one second passes between `t0`
      and the predicate's first reading. */
  lemma AlmostADayAgoRecentIff(q: Question, t0: Instant, t1: Instant, t2: Instant)
    requires q.pubDate == t0 - (23 * HOUR + 59 * MINUTE + 59 * SECOND)
    requires t0 <= t1 <= t2
    ensures WasPublishedRecently(q, t1, t2) <==> t1 - t0 <= SECOND
  {
  }

  /** The second past-question test: one day and one second before a
      reading `t0` is never recent, however late the predicate's readings. */
  lemma OverADayAgoNotRecent(q: Question, t0: Instant, t1: Instant, t2: Instant)
    requires q.pubDate == t0 - (DAY + SECOND)
    requires t0 <= t1
    ensures !WasPublishedRecently(q, t1, t2)
  {
  }

  /** The predicate depends on the publication date alone, not on the id
      or the text. */
  lemma RecencyDependsOnDateOnly(q: Question, q': Question, t1: Instant, t2: Instant)
    requires q.pubDate == q'.pubDate
    ensures WasPublishedRecently(q, t1, t2) == WasPublishedRecently(q', t1, t2)
  {
  }

  /** A question's string form is its text. */
  lemma QuestionStrIsText(id: QuestionId, text: string, pub: Instant)
    ensures QuestionStr(Question(id, text, pub)) == text
  {
  }

  /** A new choice's string form is the text it was created with. */
  lemma ChoiceStrIsText(id: QuestionId, text: string)
    ensures ChoiceStr(NewChoice(id, text)) == text
  {
  }
}
