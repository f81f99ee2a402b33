/** handlers/answer_handler.go: posting, editing, deleting and accepting
    answers, and listing a question's answers. */
module AnswerHandler {
  import opened Models
  import opened Ledger
  import opened Listing
  import opened Store

  const DefaultPage := 1
  const DefaultAnswerLimit := 10

  /** `validate:"required,min=10"` on the answer body (counted in characters). */
  predicate ValidBody(body: string) {
    |body| >= 10
  }

  /** `UPDATE questions SET answer_count = answer_count + $delta WHERE id = $1`:
      matches no row when the question does not exist. */
  function AddAnswerCount(questions: map<nat, Question>, id: nat, delta: int): (r: map<nat, Question>)
    ensures r.Keys == questions.Keys
    ensures forall q :: q in r ==>
      r[q] == if q == id then questions[q].(answerCount := questions[q].answerCount + delta) else questions[q]
  {
    if id in questions then questions[id := questions[id].(answerCount := questions[id].answerCount + delta)]
    else questions
  }

  /** `UPDATE answers SET is_accepted = false WHERE question_id = $1`. */
  function ClearAccepted(answers: map<nat, Answer>, questionId: nat): (r: map<nat, Answer>)
    ensures r.Keys == answers.Keys
    ensures forall k :: k in r ==>
      r[k] == if answers[k].questionId == questionId then answers[k].(isAccepted := false) else answers[k]
  {
    map k | k in answers :: if answers[k].questionId == questionId then answers[k].(isAccepted := false) else answers[k]
  }

  /** `POST /questions/:questionId/answers`. `questionId` is None when the path
      segment is not an unsigned integer; `insertFails`: the insert fails. */
  method CreateAnswer(db: Forum, userId: nat, questionId: Option<nat>, body: string, now: int, insertFails: bool)
    returns (status: int, id: nat)
    requires db.Valid()
    modifies db
    ensures db.Valid()
    ensures status == if !ValidBody(body) || questionId.None? then StatusBadRequest
                      else if questionId.value !in old(db.questions) then StatusNotFound
                      else if insertFails then StatusInternalError
                      else StatusCreated
    ensures status != StatusCreated ==> unchanged(db)
    ensures status == StatusCreated ==>
      var q := questionId.value;
      && id == old(db.nextAnswerId)
      && db.answers == old(db.answers)[id := Answer(id, q, userId, body, 0, false, now, now)]
      && db.nextAnswerId == id + 1
      && db.questions == AddAnswerCount(old(db.questions), q, 1)
      && db.votes == old(db.votes) && db.nextVoteId == old(db.nextVoteId)
      && db.tags == old(db.tags) && db.questionTags == old(db.questionTags)
      && db.nextQuestionId == old(db.nextQuestionId) && db.nextTagId == old(db.nextTagId)
    ensures old(db.AnswerCountsMatch()) ==> db.AnswerCountsMatch()
    ensures old(db.AcceptanceConsistent()) ==> db.AcceptanceConsistent()
    ensures old(db.UsageCountsMatch()) ==> db.UsageCountsMatch()
    ensures old(db.VoteCountersMatch()) && Tally(old(db.votes), PostRef(AnswerPost, old(db.nextAnswerId))) == 0
            ==> db.VoteCountersMatch()
  {
    id := 0;
    if !ValidBody(body) || questionId.None? {
      return StatusBadRequest, id;
    }
    var q := questionId.value;
    if q !in db.questions {
      return StatusNotFound, id;
    }
    if insertFails {
      return StatusInternalError, id;
    }
    id := db.nextAnswerId;
    var a := Answer(id, q, userId, body, 0, false, now, now);
    NewAnswerKeepsCounts(db.questions, db.answers, db.tags, db.nextQuestionId, id, db.nextTagId, a);
    NewAnswerKeepsScores(db.questions, db.answers, db.votes, id, a);
    db.answers := db.answers[id := a];
    db.nextAnswerId := db.nextAnswerId + 1;
    db.questions := AddAnswerCount(db.questions, q, 1);
    status := StatusCreated;
  }

  /** A new answer under the next serial id, with its question's count
      raised, keeps every row under its own id and every answer count right. */
  lemma NewAnswerKeepsCounts(questions: map<nat, Question>, answers: map<nat, Answer>,
                             tags: map<nat, Tag>, nq: nat, na: nat, nt: nat, a: Answer)
    requires Keyed(questions, answers, tags, nq, na, nt)
    requires a.id == na && a.questionId in questions
    ensures Keyed(AddAnswerCount(questions, a.questionId, 1), answers[na := a], tags, nq, na + 1, nt)
    ensures AnswerCountsAgree(questions, answers) ==>
      AnswerCountsAgree(AddAnswerCount(questions, a.questionId, 1), answers[na := a])
  {
    forall p | true
      ensures |AnswerIdsOf(answers[na := a], p)| == |AnswerIdsOf(answers, p)| + (if p == a.questionId then 1 else 0)
    {
      AnswerIdsAfterInsert(answers, na, a, p);
    }
  }

  /** A new answer that is not accepted and has no votes keeps acceptance
      consistent, and keeps every counter matching while no ledger row
      already points at its id. */
  lemma NewAnswerKeepsScores(questions: map<nat, Question>, answers: map<nat, Answer>, votes: seq<Vote>,
                             na: nat, a: Answer)
    requires na !in answers && a.questionId in questions && !a.isAccepted && a.votes == 0
    ensures AcceptanceAgrees(questions, answers) ==>
      AcceptanceAgrees(AddAnswerCount(questions, a.questionId, 1), answers[na := a])
    ensures CountersMatch(questions, answers, votes) && Tally(votes, PostRef(AnswerPost, na)) == 0 ==>
      CountersMatch(AddAnswerCount(questions, a.questionId, 1), answers[na := a], votes)
  {
  }

  /** `PUT /answers/:id`: the author alone may rewrite the body. */
  method UpdateAnswer(db: Forum, userId: nat, id: Option<nat>, body: string, now: int, updateFails: bool)
    returns (status: int)
    requires db.Valid()
    modifies db
    ensures db.Valid()
    ensures status == if id.None? || !ValidBody(body) then StatusBadRequest
                      else if id.value !in old(db.answers) then StatusNotFound
                      else if old(db.answers)[id.value].userId != userId then StatusForbidden
                      else if updateFails then StatusInternalError
                      else StatusOK
    ensures status != StatusOK ==> unchanged(db)
    ensures status == StatusOK ==>
      && db.answers == old(db.answers)[id.value := old(db.answers)[id.value].(body := body, updatedAt := now)]
      && db.questions == old(db.questions) && db.votes == old(db.votes)
      && db.tags == old(db.tags) && db.questionTags == old(db.questionTags)
      && db.nextQuestionId == old(db.nextQuestionId) && db.nextAnswerId == old(db.nextAnswerId)
      && db.nextVoteId == old(db.nextVoteId) && db.nextTagId == old(db.nextTagId)
    ensures old(db.AnswerCountsMatch()) ==> db.AnswerCountsMatch()
    ensures old(db.AcceptanceConsistent()) ==> db.AcceptanceConsistent()
    ensures old(db.VoteCountersMatch()) ==> db.VoteCountersMatch()
  {
    if id.None? || !ValidBody(body) {
      return StatusBadRequest;
    }
    var a := id.value;
    if a !in db.answers {
      return StatusNotFound;
    }
    if db.answers[a].userId != userId {
      return StatusForbidden;
    }
    if updateFails {
      return StatusInternalError;
    }
    var before := db.answers;
    db.answers := db.answers[a := db.answers[a].(body := body, updatedAt := now)];
    forall p | true ensures AnswerIdsOf(db.answers, p) == AnswerIdsOf(before, p) {
      AnswerIdsSameQuestions(before, db.answers, p);
    }
    status := StatusOK;
  }

  /** `DELETE /answers/:id`: the author or an Admin removes the answer, then
      the question's `answer_count` drops by one. */
  method DeleteAnswer(db: Forum, userId: nat, role: Role, id: Option<nat>, deleteFails: bool)
    returns (status: int)
    requires db.Valid()
    modifies db
    ensures db.Valid()
    ensures status == if id.None? then StatusBadRequest
                      else if id.value !in old(db.answers) then StatusNotFound
                      else if old(db.answers)[id.value].userId != userId && !IsAdmin(role) then StatusForbidden
                      else if deleteFails then StatusInternalError
                      else StatusOK
    ensures status != StatusOK ==> unchanged(db)
    ensures status == StatusOK ==>
      && db.answers == old(db.answers) - {id.value}
      && db.questions == AddAnswerCount(old(db.questions), old(db.answers)[id.value].questionId, -1)
      && db.votes == old(db.votes) && db.tags == old(db.tags) && db.questionTags == old(db.questionTags)
      && db.nextQuestionId == old(db.nextQuestionId) && db.nextAnswerId == old(db.nextAnswerId)
      && db.nextVoteId == old(db.nextVoteId) && db.nextTagId == old(db.nextTagId)
    ensures old(db.AnswerCountsMatch()) ==> db.AnswerCountsMatch()
    ensures old(db.AcceptanceConsistent()) ==> db.AcceptanceConsistent()
    ensures old(db.VoteCountersMatch()) ==> db.VoteCountersMatch()
  {
    if id.None? {
      return StatusBadRequest;
    }
    var a := id.value;
    if a !in db.answers {
      return StatusNotFound;
    }
    var answer := db.answers[a];
    if answer.userId != userId && !IsAdmin(role) {
      return StatusForbidden;
    }
    if deleteFails {
      return StatusInternalError;
    }
    RemovedAnswerKeepsCounts(db.questions, db.answers, a);
    db.answers := db.answers - {a};
    db.questions := AddAnswerCount(db.questions, answer.questionId, -1);
    status := StatusOK;
  }

  /** Removing an answer and lowering its question's count keeps every answer
      count equal to the number of answers, and keeps acceptance consistent. */
  lemma RemovedAnswerKeepsCounts(questions: map<nat, Question>, answers: map<nat, Answer>, a: nat)
    requires a in answers
    ensures AnswerCountsAgree(questions, answers) ==>
      AnswerCountsAgree(AddAnswerCount(questions, answers[a].questionId, -1), answers - {a})
    ensures AcceptanceAgrees(questions, answers) ==>
      AcceptanceAgrees(AddAnswerCount(questions, answers[a].questionId, -1), answers - {a})
  {
    forall p | true
      ensures |AnswerIdsOf(answers - {a}, p)| == |AnswerIdsOf(answers, p)| - (if p == answers[a].questionId then 1 else 0)
    {
      AnswerIdsAfterRemove(answers, a, p);
    }
  }

  /** `POST /answers/:id/accept`: the question's author clears every answer of
      the question, marks this one, then marks the question solved.
      `markFails`: the statement marking this answer fails, after the clear. */
  method AcceptAnswer(db: Forum, userId: nat, id: Option<nat>, markFails: bool) returns (status: int)
    requires db.Valid()
    modifies db
    ensures db.Valid()
    ensures status == if id.None? then StatusBadRequest
                      else if id.value !in old(db.answers) then StatusNotFound
                      else if old(db.answers)[id.value].questionId !in old(db.questions) then StatusNotFound
                      else if old(db.questions)[old(db.answers)[id.value].questionId].userId != userId then StatusForbidden
                      else if markFails then StatusInternalError
                      else StatusOK
    ensures status != StatusOK && status != StatusInternalError ==> unchanged(db)
    ensures status == StatusOK || status == StatusInternalError ==>
      && db.answers == AcceptIn(old(db.answers), id.value, status == StatusOK)
      && db.questions == SolvedIf(old(db.questions), old(db.answers)[id.value].questionId, status == StatusOK)
    ensures db.votes == old(db.votes) && db.tags == old(db.tags) && db.questionTags == old(db.questionTags)
    ensures db.nextQuestionId == old(db.nextQuestionId) && db.nextAnswerId == old(db.nextAnswerId)
    ensures db.nextVoteId == old(db.nextVoteId) && db.nextTagId == old(db.nextTagId)
    ensures old(db.AnswerCountsMatch()) ==> db.AnswerCountsMatch()
    ensures old(db.AcceptanceConsistent()) ==> db.AcceptanceConsistent()
    ensures old(db.VoteCountersMatch()) ==> db.VoteCountersMatch()
  {
    if id.None? {
      return StatusBadRequest;
    }
    var a := id.value;
    if a !in db.answers {
      return StatusNotFound;
    }
    var q := db.answers[a].questionId;
    if q !in db.questions {
      return StatusNotFound;
    }
    if db.questions[q].userId != userId {
      return StatusForbidden;
    }
    status := MarkAccepted(db, a, markFails);
  }

  /** The answers after the accept statements for answer `a`: every answer of
      its question cleared, then `a` marked when `marked` (the marking
      statement succeeded). */
  function AcceptIn(answers: map<nat, Answer>, a: nat, marked: bool): (r: map<nat, Answer>)
    requires a in answers
    ensures r.Keys == answers.Keys
    ensures forall k :: k in r ==>
      r[k] == if answers[k].questionId == answers[a].questionId then answers[k].(isAccepted := marked && k == a)
              else answers[k]
  {
    var cleared := ClearAccepted(answers, answers[a].questionId);
    if marked then cleared[a := cleared[a].(isAccepted := true)] else cleared
  }

  /** `UPDATE questions SET is_solved = true WHERE id = $1`, when reached. */
  function SolvedIf(questions: map<nat, Question>, q: nat, marked: bool): map<nat, Question>
    requires q in questions
  {
    if marked then questions[q := questions[q].(isSolved := true)] else questions
  }

  /** The accept statements keep every row under its id, every answer count,
      every vote counter, and at most one accepted answer per question, with
      its question solved. */
  lemma AcceptKeepsInvariants(questions: map<nat, Question>, answers: map<nat, Answer>, tags: map<nat, Tag>,
                              votes: seq<Vote>, nextQuestionId: nat, nextAnswerId: nat, nextTagId: nat,
                              a: nat, marked: bool)
    requires a in answers && answers[a].questionId in questions
    ensures var q', a' := SolvedIf(questions, answers[a].questionId, marked), AcceptIn(answers, a, marked);
      && (Keyed(questions, answers, tags, nextQuestionId, nextAnswerId, nextTagId) ==>
          Keyed(q', a', tags, nextQuestionId, nextAnswerId, nextTagId))
      && (AnswerCountsAgree(questions, answers) ==> AnswerCountsAgree(q', a'))
      && (AcceptanceAgrees(questions, answers) ==> AcceptanceAgrees(q', a'))
      && (CountersMatch(questions, answers, votes) ==> CountersMatch(q', a', votes))
  {
    var q', a' := SolvedIf(questions, answers[a].questionId, marked), AcceptIn(answers, a, marked);
    forall p | true ensures AnswerIdsOf(a', p) == AnswerIdsOf(answers, p) {
      AnswerIdsSameQuestions(answers, a', p);
    }
  }

  /** The question owner's branch of `AcceptAnswer`: clear, mark, then solve. */
  method MarkAccepted(db: Forum, a: nat, markFails: bool) returns (status: int)
    requires db.Valid()
    requires a in db.answers && db.answers[a].questionId in db.questions
    modifies db
    ensures db.Valid()
    ensures status == if markFails then StatusInternalError else StatusOK
    ensures db.answers == AcceptIn(old(db.answers), a, !markFails)
    ensures db.questions == SolvedIf(old(db.questions), old(db.answers)[a].questionId, !markFails)
    ensures db.votes == old(db.votes) && db.tags == old(db.tags) && db.questionTags == old(db.questionTags)
    ensures db.nextQuestionId == old(db.nextQuestionId) && db.nextAnswerId == old(db.nextAnswerId)
    ensures db.nextVoteId == old(db.nextVoteId) && db.nextTagId == old(db.nextTagId)
    ensures old(db.AnswerCountsMatch()) ==> db.AnswerCountsMatch()
    ensures old(db.AcceptanceConsistent()) ==> db.AcceptanceConsistent()
    ensures old(db.VoteCountersMatch()) ==> db.VoteCountersMatch()
  {
    var q := db.answers[a].questionId;
    AcceptKeepsInvariants(db.questions, db.answers, db.tags, db.votes, db.nextQuestionId, db.nextAnswerId, db.nextTagId,
                          a, !markFails);
    db.answers := ClearAccepted(db.answers, q);
    if markFails {
      status := StatusInternalError;
    } else {
      db.answers := db.answers[a := db.answers[a].(isAccepted := true)];
      db.questions := db.questions[q := db.questions[q].(isSolved := true)];
      status := StatusOK;
    }
  }

  /** `ORDER BY a.is_accepted DESC, a.votes DESC, a.created_at ASC`. */
  predicate AnswerBefore(a: Answer, b: Answer) {
    if a.isAccepted != b.isAccepted then a.isAccepted
    else if a.votes != b.votes then a.votes > b.votes
    else a.createdAt <= b.createdAt
  }

  predicate Answers(questionId: nat, a: Answer) {
    a.questionId == questionId
  }

  lemma AnswerBeforeIsTotalPreorder()
    ensures TotalPreorder(AnswerBefore)
  {
    forall a, b, c | AnswerBefore(a, b) && AnswerBefore(b, c) ensures AnswerBefore(a, c) {
      if a.isAccepted == b.isAccepted == c.isAccepted && a.votes == b.votes == c.votes {
        assert a.createdAt <= b.createdAt <= c.createdAt;
      }
    }
  }

  /** `WHERE a.question_id = $1`: the question's answers in a scan by id. */
  function AnswerRows(answers: map<nat, Answer>, nextId: nat, questionId: nat): (r: seq<Answer>)
    ensures forall a :: a in r ==> a in answers.Values && a.questionId == questionId
    ensures forall k :: k in answers && k < nextId && answers[k].questionId == questionId ==> answers[k] in r
    ensures forall x :: multiset(r)[x] == if x.questionId == questionId then multiset(Scan(answers, nextId))[x] else 0
    ensures (forall k :: k in answers ==> answers[k].id == k) ==> Distinct(r)
  {
    var all := Scan(answers, nextId);
    var r := Filter(all, a => Answers(questionId, a));
    assert (forall k :: k in answers ==> answers[k].id == k) ==> Distinct(r) by {
      if forall k :: k in answers ==> answers[k].id == k {
        ScanDistinct(answers, nextId);
        FilterDistinct(all, a => Answers(questionId, a));
      }
    }
    r
  }

  /** A question's answers in listing order. */
  function AnswerListing(answers: map<nat, Answer>, nextId: nat, questionId: nat): (r: seq<Answer>)
    ensures forall a :: a in r ==> a in answers.Values && a.questionId == questionId
    ensures forall k :: k in answers && k < nextId && answers[k].questionId == questionId ==> answers[k] in r
    ensures SortedBy(r, AnswerBefore)
    ensures multiset(r) == multiset(AnswerRows(answers, nextId, questionId))
    ensures (forall k :: k in answers ==> answers[k].id == k) ==> Distinct(r)
  {
    var mine := AnswerRows(answers, nextId, questionId);
    AnswerBeforeIsTotalPreorder();
    SortBySorted(mine, AnswerBefore);
    SortByMembers(mine, AnswerBefore);
    var r := SortBy(mine, AnswerBefore);
    assert (forall k :: k in answers ==> answers[k].id == k) ==> Distinct(r) by {
      if forall k :: k in answers ==> answers[k].id == k {
        DistinctPermutation(mine, r);
      }
    }
    r
  }

  /** `GET /questions/:questionId/answers?page&limit`. A missing question is
      not an error: its listing is empty. */
  function GetAnswers(db: Forum, questionId: Option<nat>, page: Option<int>, limit: Option<int>): (r: Reply<seq<Answer>>)
    reads db
    ensures questionId.None? ==> r == Fail(StatusBadRequest)
    ensures questionId.Some? ==>
      var window := Page(AnswerListing(db.answers, db.nextAnswerId, questionId.value),
                         page.GetOr(DefaultPage), limit.GetOr(DefaultAnswerLimit));
      && (r.Ok? <==> window.Some?)
      && (r.Fail? ==> r.status == StatusInternalError)
      && (r.Ok? ==> r.value == window.value)
  {
    match questionId
    case None => Fail(StatusBadRequest)
    case Some(q) =>
      match Page(AnswerListing(db.answers, db.nextAnswerId, q), page.GetOr(DefaultPage), limit.GetOr(DefaultAnswerLimit))
      case None => Fail(StatusInternalError)
      case Some(w) => Ok(w)
  }

  /** A page of answers holds at most `limit` rows, each a stored answer of
      that question, accepted first, then by votes, then oldest first. */
  lemma AnswersPage(db: Forum, questionId: nat, page: Option<int>, limit: Option<int>)
    ensures var r := GetAnswers(db, Some(questionId), page, limit);
      r.Ok? ==>
        && |r.value| <= limit.GetOr(DefaultAnswerLimit)
        && (forall i :: 0 <= i < |r.value| ==> r.value[i] in db.answers.Values && r.value[i].questionId == questionId)
        && SortedBy(r.value, AnswerBefore)
  {
    var all := AnswerListing(db.answers, db.nextAnswerId, questionId);
    if Page(all, page.GetOr(DefaultPage), limit.GetOr(DefaultAnswerLimit)).Some? {
      PageOfSorted(all, page.GetOr(DefaultPage), limit.GetOr(DefaultAnswerLimit), AnswerBefore);
    }
  }
}
