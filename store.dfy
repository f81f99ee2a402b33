/** The forum's tables as one store object. The handlers update it statement
    by statement, each handler taken as one uninterrupted step. */
module Store {
  import opened Models
  import opened Ledger

  /** `UPDATE questions SET votes = votes + $1 WHERE id = $2`: matches no row
      when the question does not exist. */
  function AddQuestionVotes(questions: map<nat, Question>, id: nat, delta: int): (r: map<nat, Question>)
    ensures r.Keys == questions.Keys
    ensures forall q :: q in r ==> r[q] == if q == id then questions[q].(votes := questions[q].votes + delta) else questions[q]
  {
    if id in questions then questions[id := questions[id].(votes := questions[id].votes + delta)] else questions
  }

  /** `UPDATE answers SET votes = votes + $1 WHERE id = $2`. */
  function AddAnswerVotes(answers: map<nat, Answer>, id: nat, delta: int): (r: map<nat, Answer>)
    ensures r.Keys == answers.Keys
    ensures forall a :: a in r ==> r[a] == if a == id then answers[a].(votes := answers[a].votes + delta) else answers[a]
  {
    if id in answers then answers[id := answers[id].(votes := answers[id].votes + delta)] else answers
  }

  /** The ids of the answers to a question. */
  function AnswerIdsOf(answers: map<nat, Answer>, questionId: nat): set<nat> {
    set id | id in answers && answers[id].questionId == questionId
  }

  /** `COUNT(qt.question_id)` over the links to a tag. */
  function CountLinks(links: seq<QuestionTag>, tagId: nat): nat {
    if |links| == 0 then 0
    else (if links[0].tagId == tagId then 1 else 0) + CountLinks(links[1..], tagId)
  }

  lemma {:induction false} CountLinksConcat(a: seq<QuestionTag>, b: seq<QuestionTag>, tagId: nat)
    ensures CountLinks(a + b, tagId) == CountLinks(a, tagId) + CountLinks(b, tagId)
  {
    if |a| == 0 {
      assert a + b == b;
    } else {
      assert (a + b)[1..] == a[1..] + b;
      CountLinksConcat(a[1..], b, tagId);
    }
  }

  /** `SELECT id FROM tags WHERE name = $1`, read as one row: the first tag
      with that name in a scan of ids below `n`. */
  function TagNamed(tags: map<nat, Tag>, n: nat, name: string): (r: Option<nat>)
    ensures r.Some? ==> r.value < n && r.value in tags && tags[r.value].name == name
  {
    if n == 0 then None
    else match TagNamed(tags, n - 1, name)
      case Some(k) => Some(k)
      case None => if n - 1 in tags && tags[n - 1].name == name then Some(n - 1) else None
  }

  /** The lookup finds the first tag with the name, and finds none exactly
      when no tag below `n` has it. */
  lemma {:induction false} TagNamedFirst(tags: map<nat, Tag>, n: nat, name: string)
    ensures var r := TagNamed(tags, n, name);
      && (r.Some? ==> forall k :: k in tags && k < r.value ==> tags[k].name != name)
      && (r.None? <==> forall k :: k in tags && k < n ==> tags[k].name != name)
  {
    if n > 0 {
      TagNamedFirst(tags, n - 1, name);
    }
  }

  /** The lookup sees only ids and names. */
  lemma {:induction false} TagNamedSameNames(a: map<nat, Tag>, b: map<nat, Tag>, n: nat, name: string)
    requires a.Keys == b.Keys
    requires forall k :: k in a ==> a[k].name == b[k].name
    ensures TagNamed(a, n, name) == TagNamed(b, n, name)
  {
    if n > 0 {
      TagNamedSameNames(a, b, n - 1, name);
    }
  }

  /** Every existing post's `votes` column equals the sum of the ledger's
      types for that post. */
  ghost predicate CountersMatch(questions: map<nat, Question>, answers: map<nat, Answer>, ledger: seq<Vote>) {
    && (forall id :: id in questions ==> questions[id].votes == Tally(ledger, PostRef(QuestionPost, id)))
    && (forall id :: id in answers ==> answers[id].votes == Tally(ledger, PostRef(AnswerPost, id)))
  }

  /** The counter update that follows each ledger change keeps every existing
      post's counter equal to its ledger sum, in all three branches. The post
      need not exist: then no counter moves, and no existing post's sum does. */
  lemma StepKeepsCountersMatch(questions: map<nat, Question>, answers: map<nat, Answer>, ledger: seq<Vote>,
                               step: Step, userId: nat, post: PostRef, direction: int, now: int, newId: nat)
    requires CountersMatch(questions, answers, ledger)
    requires StepFits(ledger, step, userId, post)
    ensures var delta := Delta(ledger, step, direction);
            CountersMatch(
              if post.kind == QuestionPost then AddQuestionVotes(questions, post.id, delta) else questions,
              if post.kind == AnswerPost then AddAnswerVotes(answers, post.id, delta) else answers,
              Apply(ledger, step, userId, post, direction, now, newId))
  {
    forall p | true
      ensures Tally(Apply(ledger, step, userId, post, direction, now, newId), p)
           == Tally(ledger, p) + (if p == post then Delta(ledger, step, direction) else 0)
    {
      TallyAfterStep(ledger, step, userId, post, direction, now, newId, p);
    }
  }

  /** Every row sits under its own id, the ids come from the serial
      sequences, and an answer's question id was handed out. */
  ghost predicate Keyed(questions: map<nat, Question>, answers: map<nat, Answer>, tags: map<nat, Tag>,
                        nextQuestionId: nat, nextAnswerId: nat, nextTagId: nat) {
    && (forall id :: id in questions ==> questions[id].id == id && id < nextQuestionId)
    && (forall id :: id in answers ==>
          answers[id].id == id && id < nextAnswerId && answers[id].questionId < nextQuestionId)
    && (forall id :: id in tags ==> tags[id].id == id && id < nextTagId)
  }

  /** Every link points at ids already handed out. */
  ghost predicate LinksBelow(links: seq<QuestionTag>, nextQuestionId: nat, nextTagId: nat) {
    forall i :: 0 <= i < |links| ==> links[i].questionId < nextQuestionId && links[i].tagId < nextTagId
  }

  /** Moving a post's counter leaves every row under its own id. */
  lemma ScoreKeepsKeyed(questions: map<nat, Question>, answers: map<nat, Answer>, tags: map<nat, Tag>,
                        nextQuestionId: nat, nextAnswerId: nat, nextTagId: nat, post: PostRef, delta: int)
    requires Keyed(questions, answers, tags, nextQuestionId, nextAnswerId, nextTagId)
    ensures Keyed(if post.kind == QuestionPost then AddQuestionVotes(questions, post.id, delta) else questions,
                  if post.kind == AnswerPost then AddAnswerVotes(answers, post.id, delta) else answers,
                  tags, nextQuestionId, nextAnswerId, nextTagId)
  {
  }

  /** Every existing question's `answer_count` equals its number of answers. */
  ghost predicate AnswerCountsAgree(questions: map<nat, Question>, answers: map<nat, Answer>) {
    forall id :: id in questions ==> questions[id].answerCount == |AnswerIdsOf(answers, id)|
  }

  /** An existing question has at most one accepted answer, and a question
      with an accepted answer is solved. */
  ghost predicate AcceptanceAgrees(questions: map<nat, Question>, answers: map<nat, Answer>) {
    && (forall a, b ::
          a in answers && b in answers && answers[a].isAccepted && answers[b].isAccepted
          && answers[a].questionId == answers[b].questionId && answers[a].questionId in questions
          ==> a == b)
    && (forall a :: a in answers && answers[a].isAccepted && answers[a].questionId in questions
          ==> questions[answers[a].questionId].isSolved)
  }

  ghost predicate NamesDistinct(tags: map<nat, Tag>) {
    forall a, b :: a in tags && b in tags && tags[a].name == tags[b].name ==> a == b
  }

  /** Every tag's stored `usage_count` equals its number of question links. */
  ghost predicate UsageAgrees(tags: map<nat, Tag>, links: seq<QuestionTag>) {
    forall id :: id in tags ==> tags[id].usageCount == CountLinks(links, id)
  }

  /** A new answer under a fresh id joins its question's answers and no other's. */
  lemma AnswerIdsAfterInsert(answers: map<nat, Answer>, id: nat, a: Answer, q: nat)
    requires id !in answers
    ensures AnswerIdsOf(answers[id := a], q)
         == if a.questionId == q then AnswerIdsOf(answers, q) + {id} else AnswerIdsOf(answers, q)
    ensures |AnswerIdsOf(answers[id := a], q)| == |AnswerIdsOf(answers, q)| + (if a.questionId == q then 1 else 0)
  {
  }

  /** A removed answer leaves its question's answers and no other's. */
  lemma AnswerIdsAfterRemove(answers: map<nat, Answer>, id: nat, q: nat)
    requires id in answers
    ensures AnswerIdsOf(answers - {id}, q)
         == if answers[id].questionId == q then AnswerIdsOf(answers, q) - {id} else AnswerIdsOf(answers, q)
    ensures |AnswerIdsOf(answers - {id}, q)| == |AnswerIdsOf(answers, q)| - (if answers[id].questionId == q then 1 else 0)
  {
  }

  /** Rewriting answers without moving any to another question keeps every
      question's set of answers. */
  lemma AnswerIdsSameQuestions(before: map<nat, Answer>, after: map<nat, Answer>, q: nat)
    requires before.Keys == after.Keys
    requires forall k :: k in before ==> after[k].questionId == before[k].questionId
    ensures AnswerIdsOf(after, q) == AnswerIdsOf(before, q)
  {
  }

  class Forum {
    var questions: map<nat, Question>
    var answers: map<nat, Answer>
    var votes: seq<Vote>
    var tags: map<nat, Tag>
    var questionTags: seq<QuestionTag>
    // The serial sequences behind each table's `id` column.
    var nextQuestionId: nat
    var nextAnswerId: nat
    var nextVoteId: nat
    var nextTagId: nat

    /** Every row sits under its own id, ids come from the serial sequences,
        and stored references point at ids already handed out. */
    ghost predicate Valid()
      reads this
    {
      && Keyed(questions, answers, tags, nextQuestionId, nextAnswerId, nextTagId)
      && WellFormed(votes, nextVoteId)
      && LinksBelow(questionTags, nextQuestionId, nextTagId)
    }

    /** Every existing post's `votes` column equals the sum of the ledger's
        types for that post. */
    ghost predicate VoteCountersMatch()
      reads this
    {
      CountersMatch(questions, answers, votes)
    }

    /** Every existing question's `answer_count` equals its number of answers. */
    ghost predicate AnswerCountsMatch()
      reads this
    {
      AnswerCountsAgree(questions, answers)
    }

    /** An existing question has at most one accepted answer, and a question
        with an accepted answer is solved. */
    ghost predicate AcceptanceConsistent()
      reads this
    {
      AcceptanceAgrees(questions, answers)
    }

    ghost predicate TagNamesUnique()
      reads this
    {
      NamesDistinct(tags)
    }

    /** Every tag's stored `usage_count` equals its number of question links. */
    ghost predicate UsageCountsMatch()
      reads this
    {
      UsageAgrees(tags, questionTags)
    }

    /** An empty database: every table empty, every sequence starting at 1. */
    constructor ()
      ensures Valid()
      ensures questions == map[] && answers == map[] && votes == [] && tags == map[] && questionTags == []
      ensures nextQuestionId == 1 && nextAnswerId == 1 && nextVoteId == 1 && nextTagId == 1
    {
      questions, answers, votes, tags, questionTags := map[], map[], [], map[], [];
      nextQuestionId, nextAnswerId, nextVoteId, nextTagId := 1, 1, 1, 1;
    }

    /** The counter update of a vote: `UPDATE questions|answers SET votes =
        votes + delta WHERE id = post_id`, on the table `post_type` selects. */
    method AddToScore(post: PostRef, delta: int)
      modifies this
      ensures questions == if post.kind == QuestionPost then AddQuestionVotes(old(questions), post.id, delta) else old(questions)
      ensures answers == if post.kind == AnswerPost then AddAnswerVotes(old(answers), post.id, delta) else old(answers)
      ensures votes == old(votes) && tags == old(tags) && questionTags == old(questionTags)
      ensures nextQuestionId == old(nextQuestionId) && nextAnswerId == old(nextAnswerId)
      ensures nextVoteId == old(nextVoteId) && nextTagId == old(nextTagId)
    {
      if post.kind == QuestionPost {
        questions := AddQuestionVotes(questions, post.id, delta);
      } else {
        answers := AddAnswerVotes(answers, post.id, delta);
      }
    }

    /** The statements of one vote branch: the ledger change (insert a row with
        the next serial id, or delete or retype the found row by its id),
        then the counter update on the table `post_type` selects. */
    method RecordVote(step: Step, userId: nat, post: PostRef, direction: int, now: int)
      requires Valid()
      requires StepFits(votes, step, userId, post)
      requires direction == 1 || direction == -1
      modifies this
      ensures Valid()
      ensures votes == Apply(old(votes), step, userId, post, direction, now, old(nextVoteId))
      ensures nextVoteId == old(nextVoteId) + (if step.Insert? then 1 else 0)
      ensures questions == if post.kind == QuestionPost
                           then AddQuestionVotes(old(questions), post.id, Delta(old(votes), step, direction))
                           else old(questions)
      ensures answers == if post.kind == AnswerPost
                         then AddAnswerVotes(old(answers), post.id, Delta(old(votes), step, direction))
                         else old(answers)
      ensures tags == old(tags) && questionTags == old(questionTags)
      ensures nextQuestionId == old(nextQuestionId) && nextAnswerId == old(nextAnswerId)
      ensures nextTagId == old(nextTagId)
      ensures old(VoteCountersMatch()) ==> VoteCountersMatch()
    {
      var before, newId := votes, nextVoteId;
      var oldQuestions, oldAnswers := questions, answers;
      var delta := Delta(before, step, direction);
      match step {
        case Insert =>
          votes := votes + [Vote(nextVoteId, userId, post, direction, now)];
          nextVoteId := nextVoteId + 1;
        case Remove(i) =>
          RemoveByIdAt(votes, i);
          votes := RemoveById(votes, votes[i].id);
        case Flip(i) =>
          RetypeByIdAt(votes, i, direction, now);
          votes := RetypeById(votes, votes[i].id, direction, now);
      }
      AddToScore(post, delta);
      StepKeepsRowsWellFormed(before, step, userId, post, direction, now, newId);
      ScoreKeepsKeyed(oldQuestions, oldAnswers, tags, nextQuestionId, nextAnswerId, nextTagId, post, delta);
      if CountersMatch(oldQuestions, oldAnswers, before) {
        StepKeepsCountersMatch(oldQuestions, oldAnswers, before, step, userId, post, direction, now, newId);
      }
    }
  }
}
