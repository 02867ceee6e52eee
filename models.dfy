/** The two records of the polls app, `Question` and `Choice`, and the
    "published recently" predicate on a question. */
module Models {
  import opened Instants

  /** The primary key the ORM gives every record implicitly. */
  type QuestionId = nat

  /** Both text columns are declared with `max_length=200`. */
  const MAX_TEXT_LENGTH: nat := 200

  datatype Question = Question(id: QuestionId, questionText: string, pubDate: Instant)

  /** `question` is the foreign key to the owning question, held as its id. */
  datatype Choice = Choice(question: QuestionId, choiceText: string, votes: int)

  /** What the database column accepts; nothing in the model code checks it. */
  predicate FitsColumn(text: string) {
    |text| <= MAX_TEXT_LENGTH
  }

  /** `Question.__str__`. */
  function QuestionStr(q: Question): string {
    q.questionText
  }

  /** `Choice.__str__`. */
  function ChoiceStr(c: Choice): string {
    c.choiceText
  }

  /** Creating a choice without naming `votes` gives it the field default. */
  function NewChoice(question: QuestionId, text: string): (c: Choice)
    ensures c.votes == 0
    ensures c.question == question && c.choiceText == text
  {
    Choice(question, text, 0)
  }

  /** The single-reading meaning of "recent": `pub` lies in the trailing day
      that ends at `now`, both ends included. */
  predicate InWindow(now: Instant, pub: Instant) {
    now - DAY <= pub <= now
  }

  /** `Question.was_published_recently`. The source reads the clock twice:
      `t1` is the reading that fixes the lower limit, `t2` the one the
      upper bound is compared with. Nothing orders the two readings (a wall
      clock may be stepped back), so the function takes any pair. */
  function WasPublishedRecently(q: Question, t1: Instant, t2: Instant): (r: bool)
    // with a single reading it is exactly the trailing-day window
    ensures t1 == t2 ==> (r <==> InWindow(t1, q.pubDate))
    // never recent if published after the later reading
    ensures r ==> q.pubDate <= t2
    // any instant between the readings whose window holds the date accepts it
    ensures forall t :: t1 <= t <= t2 && InWindow(t, q.pubDate) ==> r
  {
    var limit := t1 - DAY;
    t2 >= q.pubDate >= limit
  }
}
