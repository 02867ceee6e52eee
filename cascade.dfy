/** The foreign key from `Choice` to `Question`: the reverse accessor
    `question.choices` and the `on_delete=CASCADE` rule. The stored rows of
    both tables are modelled as sequences in insertion order. */
module Cascade {
  import opened Models

  datatype Store = Store(questions: seq<Question>, choices: seq<Choice>)

  /** The ids of the stored questions. */
  function QuestionIds(questions: seq<Question>): set<QuestionId> {
    set q | q in questions :: q.id
  }

  /** Every choice's foreign key names a stored question. */
  predicate ReferencesResolve(s: Store) {
    forall c :: c in s.choices ==> c.question in QuestionIds(s.questions)
  }

  /** `question.choices` (the `related_name`): the choices whose foreign key
      is `id`, in stored order. */
  function ChoicesOf(choices: seq<Choice>, id: QuestionId): (r: seq<Choice>)
    ensures forall c :: c in r <==> c in choices && c.question == id
    ensures |r| <= |choices|
  {
    if choices == [] then []
    else (if choices[0].question == id then [choices[0]] else []) + ChoicesOf(choices[1..], id)
  }

  /** The choices whose foreign key is not `id`, in stored order. */
  function ChoicesNotOf(choices: seq<Choice>, id: QuestionId): (r: seq<Choice>)
    ensures forall c :: c in r <==> c in choices && c.question != id
    ensures |r| <= |choices|
  {
    if choices == [] then []
    else (if choices[0].question != id then [choices[0]] else []) + ChoicesNotOf(choices[1..], id)
  }

  /** The questions whose id is not `id`, in stored order. */
  function QuestionsNotWithId(questions: seq<Question>, id: QuestionId): (r: seq<Question>)
    ensures forall q :: q in r <==> q in questions && q.id != id
    ensures |r| <= |questions|
  {
    if questions == [] then []
    else (if questions[0].id != id then [questions[0]] else []) + QuestionsNotWithId(questions[1..], id)
  }

  /** Deleting the question with primary key `id`: its row goes, and by the
      cascade rule so does every choice that refers to it. */
  function DeleteQuestion(s: Store, id: QuestionId): (r: Store)
    ensures forall q :: q in r.questions <==> q in s.questions && q.id != id
    ensures forall c :: c in r.choices <==> c in s.choices && c.question != id
    ensures id !in QuestionIds(r.questions)
  {
    Store(QuestionsNotWithId(s.questions, id), ChoicesNotOf(s.choices, id))
  }

  /** After the delete the deleted question has no choices left. */
  lemma DeleteLeavesNoChoices(s: Store, id: QuestionId)
    ensures ChoicesOf(DeleteQuestion(s, id).choices, id) == []
  {
    NoChoicesOfAbsentKey(DeleteQuestion(s, id).choices, id);
  }

  lemma {:induction false} NoChoicesOfAbsentKey(choices: seq<Choice>, id: QuestionId)
    requires forall c :: c in choices ==> c.question != id
    ensures ChoicesOf(choices, id) == []
  {
    if choices != [] {
      assert choices[0] in choices;
      assert forall c :: c in choices[1..] ==> c in choices;
      NoChoicesOfAbsentKey(choices[1..], id);
    }
  }

  /** Splitting the choices by one foreign key loses and duplicates nothing:
      the choices deleted with the question and those kept make up the
      original rows. */
  lemma {:induction false} CascadePartitions(choices: seq<Choice>, id: QuestionId)
    ensures multiset(ChoicesOf(choices, id)) + multiset(ChoicesNotOf(choices, id)) == multiset(choices)
  {
    if choices != [] {
      var rest := choices[1..];
      CascadePartitions(rest, id);
      assert choices == [choices[0]] + rest;
      if choices[0].question == id {
        assert ChoicesOf(choices, id) == [choices[0]] + ChoicesOf(rest, id);
        assert ChoicesNotOf(choices, id) == ChoicesNotOf(rest, id);
      } else {
        assert ChoicesOf(choices, id) == ChoicesOf(rest, id);
        assert ChoicesNotOf(choices, id) == [choices[0]] + ChoicesNotOf(rest, id);
      }
    }
  }

  /** Deleting a question leaves every other question's choices exactly as
      they were (in the stored order the model keeps). */
  lemma {:induction false} CascadeKeepsOtherChoices(choices: seq<Choice>, id: QuestionId, other: QuestionId)
    requires other != id
    ensures ChoicesOf(ChoicesNotOf(choices, id), other) == ChoicesOf(choices, other)
  {
    if choices != [] {
      CascadeKeepsOtherChoices(choices[1..], id, other);
      var head := if choices[0].question != id then [choices[0]] else [];
      ChoicesOfAppend(head, ChoicesNotOf(choices[1..], id), other);
    }
  }

  /** `ChoicesOf` distributes over concatenation of the stored rows. */
  lemma {:induction false} ChoicesOfAppend(xs: seq<Choice>, ys: seq<Choice>, id: QuestionId)
    ensures ChoicesOf(xs + ys, id) == ChoicesOf(xs, id) + ChoicesOf(ys, id)
  {
    if xs != [] {
      ChoicesOfAppend(xs[1..], ys, id);
      assert (xs + ys)[0] == xs[0] && (xs + ys)[1..] == xs[1..] + ys;
      var head := if xs[0].question == id then [xs[0]] else [];
      assert ChoicesOf(xs + ys, id) == head + ChoicesOf(xs[1..] + ys, id);
    } else {
      assert xs + ys == ys;
    }
  }

  /** A choice created for a question is listed last among its choices (in
      the stored order the model keeps),
      with no votes, and no other question's choices change. */
  lemma AddedChoiceIsListed(choices: seq<Choice>, id: QuestionId, text: string, other: QuestionId)
    ensures ChoicesOf(choices + [NewChoice(id, text)], id) == ChoicesOf(choices, id) + [NewChoice(id, text)]
    ensures other != id ==> ChoicesOf(choices + [NewChoice(id, text)], other) == ChoicesOf(choices, other)
  {
    ChoicesOfAppend(choices, [NewChoice(id, text)], id);
    ChoicesOfAppend(choices, [NewChoice(id, text)], other);
  }

  /** The cascade leaves no choice pointing at a deleted question: if every
      foreign key resolved before the delete, every one resolves after. */
  lemma DeletePreservesReferences(s: Store, id: QuestionId)
    requires ReferencesResolve(s)
    ensures ReferencesResolve(DeleteQuestion(s, id))
  {
  }

  /** Deleting the same question twice is deleting it once. */
  lemma {:induction false} DeleteIdempotent(s: Store, id: QuestionId)
    ensures DeleteQuestion(DeleteQuestion(s, id), id) == DeleteQuestion(s, id)
  {
    NotOfIdempotent(s.choices, id);
    NotWithIdIdempotent(s.questions, id);
  }

  lemma {:induction false} NotOfIdempotent(choices: seq<Choice>, id: QuestionId)
    ensures ChoicesNotOf(ChoicesNotOf(choices, id), id) == ChoicesNotOf(choices, id)
  {
    if choices != [] {
      NotOfIdempotent(choices[1..], id);
      var kept := ChoicesNotOf(choices, id);
      if choices[0].question != id {
        assert kept[0] == choices[0] && kept[1..] == ChoicesNotOf(choices[1..], id);
      } else {
        assert kept == ChoicesNotOf(choices[1..], id);
      }
    }
  }

  lemma {:induction false} NotWithIdIdempotent(questions: seq<Question>, id: QuestionId)
    ensures QuestionsNotWithId(QuestionsNotWithId(questions, id), id) == QuestionsNotWithId(questions, id)
  {
    if questions != [] {
      NotWithIdIdempotent(questions[1..], id);
      var kept := QuestionsNotWithId(questions, id);
      if questions[0].id != id {
        assert kept[0] == questions[0] && kept[1..] == QuestionsNotWithId(questions[1..], id);
      } else {
        assert kept == QuestionsNotWithId(questions[1..], id);
      }
    }
  }
}
