/** handlers/question_handler.go: posting a question with its tags, editing,
    deleting and viewing it, and the newest-first listing. */
module QuestionHandler {
  import opened Models
  import opened Ledger
  import opened Listing
  import opened Store

  const DefaultPage := 1
  const DefaultQuestionLimit := 10
  const MaxTags := 5

  /** `validate:"required,min=5,max=200"` on the title, `required,min=10` on
      the body and `max=5` on the tag list (lengths counted in characters). */
  predicate ValidQuestion(title: string, body: string, tagNames: seq<string>) {
    5 <= |title| <= 200 && |body| >= 10 && |tagNames| <= MaxTags
  }

  /** The tag ids the linking loop reaches: one per leading tag name that
      names a tag, stopping at the first name that names none. */
  function Resolve(tags: map<nat, Tag>, n: nat, names: seq<string>): (ids: seq<nat>)
    ensures |ids| <= |names|
  {
    if |names| == 0 then []
    else match TagNamed(tags, n, names[0])
      case None => []
      case Some(t) => [t] + Resolve(tags, n, names[1..])
  }

  /** Each resolved id is the lookup of the name at its position, and a run
      shorter than the names stops at a name the lookup does not find. */
  lemma {:induction false} ResolveFound(tags: map<nat, Tag>, n: nat, names: seq<string>)
    ensures var ids := Resolve(tags, n, names);
      && (forall j :: 0 <= j < |ids| ==> TagNamed(tags, n, names[j]) == Some(ids[j]))
      && (|ids| < |names| ==> TagNamed(tags, n, names[|ids|]).None?)
  {
    if |names| > 0 && TagNamed(tags, n, names[0]).Some? {
      ResolveFound(tags, n, names[1..]);
    }
  }

  /** Any run of ids found name by name up to the first unknown name, or to
      the end, is the one `Resolve` gives. */
  lemma {:induction false} ResolveUnique(tags: map<nat, Tag>, n: nat, names: seq<string>, ids: seq<nat>)
    requires |ids| <= |names|
    requires forall j :: 0 <= j < |ids| ==> TagNamed(tags, n, names[j]) == Some(ids[j])
    requires |ids| < |names| ==> TagNamed(tags, n, names[|ids|]).None?
    ensures ids == Resolve(tags, n, names)
  {
    if |names| > 0 && |ids| > 0 {
      ResolveUnique(tags, n, names[1..], ids[1..]);
      assert ids == [ids[0]] + ids[1..];
    }
  }

  /** Where the scan of names has reached a known name, that name's id is
      the next one `Resolve` gives. */
  lemma ResolveStep(tags: map<nat, Tag>, n: nat, names: seq<string>, i: nat, t: nat)
    requires i <= |Resolve(tags, n, names)| && i < |names|
    requires TagNamed(tags, n, names[i]) == Some(t)
    ensures i < |Resolve(tags, n, names)| && Resolve(tags, n, names)[..i + 1] == Resolve(tags, n, names)[..i] + [t]
  {
    ResolveFound(tags, n, names);
    var all := Resolve(tags, n, names);
    assert all[..i + 1] == all[..i] + [all[i]];
  }

  /** Where the scan of names has reached an unknown name, `Resolve` ends. */
  lemma ResolveStops(tags: map<nat, Tag>, n: nat, names: seq<string>, i: nat)
    requires i <= |Resolve(tags, n, names)| && i < |names|
    requires TagNamed(tags, n, names[i]).None?
    ensures i == |Resolve(tags, n, names)|
  {
    ResolveFound(tags, n, names);
  }

  /** `UPDATE tags SET usage_count = usage_count + 1 WHERE id = $1`. */
  function BumpUsage(tags: map<nat, Tag>, id: nat): map<nat, Tag> {
    if id in tags then tags[id := tags[id].(usageCount := tags[id].usageCount + 1)] else tags
  }

  /** The usage bumps for a run of tag ids, in order. */
  function Bumped(tags: map<nat, Tag>, ids: seq<nat>): (r: map<nat, Tag>)
    ensures r.Keys == tags.Keys
  {
    if |ids| == 0 then tags
    else BumpUsage(Bumped(tags, ids[..|ids| - 1]), ids[|ids| - 1])
  }

  /** Each tag's usage count grows by the number of times its id occurs in
      the run; nothing else about the tag changes. */
  lemma {:induction false} BumpedCounts(tags: map<nat, Tag>, ids: seq<nat>)
    ensures forall k :: k in tags ==>
      Bumped(tags, ids)[k] == tags[k].(usageCount := tags[k].usageCount + multiset(ids)[k])
  {
    if |ids| > 0 {
      BumpedCounts(tags, ids[..|ids| - 1]);
      assert ids == ids[..|ids| - 1] + [ids[|ids| - 1]];
    }
  }

  /** The lookup by name is blind to usage counts. */
  lemma TagNamedAfterBumps(tags: map<nat, Tag>, ids: seq<nat>, n: nat, name: string)
    ensures TagNamed(Bumped(tags, ids), n, name) == TagNamed(tags, n, name)
  {
    BumpedCounts(tags, ids);
    TagNamedSameNames(Bumped(tags, ids), tags, n, name);
  }

  /** The `question_tags` rows the loop inserts for a run of tag ids. */
  function LinksTo(questionId: nat, ids: seq<nat>): (r: seq<QuestionTag>)
    ensures |r| == |ids|
  {
    if |ids| == 0 then [] else [QuestionTag(questionId, ids[0])] + LinksTo(questionId, ids[1..])
  }

  /** The `j`-th new row links the question to the `j`-th id. */
  lemma {:induction false} LinksToAt(questionId: nat, ids: seq<nat>)
    ensures forall j :: 0 <= j < |ids| ==> LinksTo(questionId, ids)[j] == QuestionTag(questionId, ids[j])
  {
    if |ids| > 0 {
      LinksToAt(questionId, ids[1..]);
    }
  }

  /** A tag gains one link per occurrence of its id in the run. */
  lemma {:induction false} CountLinksTo(questionId: nat, ids: seq<nat>, tagId: nat)
    ensures CountLinks(LinksTo(questionId, ids), tagId) == multiset(ids)[tagId]
  {
    if |ids| > 0 {
      CountLinksTo(questionId, ids[1..], tagId);
      var links := LinksTo(questionId, ids);
      assert links[0] == QuestionTag(questionId, ids[0]);
      assert links[1..] == LinksTo(questionId, ids[1..]);
      assert ids == [ids[0]] + ids[1..];
      assert multiset(ids) == multiset{ids[0]} + multiset(ids[1..]);
    }
  }

  /** Bumping each tag once per new link keeps every usage count equal to its
      number of links. */
  lemma LinkingKeepsUsage(tags: map<nat, Tag>, links: seq<QuestionTag>, questionId: nat, ids: seq<nat>)
    requires UsageAgrees(tags, links)
    ensures UsageAgrees(Bumped(tags, ids), links + LinksTo(questionId, ids))
  {
    BumpedCounts(tags, ids);
    forall k | k in tags
      ensures CountLinks(links + LinksTo(questionId, ids), k) == CountLinks(links, k) + multiset(ids)[k]
    {
      CountLinksConcat(links, LinksTo(questionId, ids), k);
      CountLinksTo(questionId, ids, k);
    }
  }

  /** One more name found: one more bump and one more link. */
  lemma LinkOneMore(tags: map<nat, Tag>, questionId: nat, ids: seq<nat>, t: nat)
    ensures Bumped(tags, ids + [t]) == BumpUsage(Bumped(tags, ids), t)
    ensures LinksTo(questionId, ids + [t]) == LinksTo(questionId, ids) + [QuestionTag(questionId, t)]
  {
    assert (ids + [t])[..|ids|] == ids;
    LinksToAt(questionId, ids);
    LinksToAt(questionId, ids + [t]);
  }

  /** The loop's writes keep the rows keyed, the links pointing at handed-out
      ids, and the tag names as they were. */
  lemma LinkingKeepsRows(db: Forum, tags: map<nat, Tag>, links: seq<QuestionTag>, questionId: nat, ids: seq<nat>)
    requires Keyed(db.questions, db.answers, tags, db.nextQuestionId, db.nextAnswerId, db.nextTagId)
    requires LinksBelow(links, db.nextQuestionId, db.nextTagId)
    requires questionId < db.nextQuestionId
    requires forall j :: 0 <= j < |ids| ==> ids[j] < db.nextTagId
    ensures Keyed(db.questions, db.answers, Bumped(tags, ids), db.nextQuestionId, db.nextAnswerId, db.nextTagId)
    ensures LinksBelow(links + LinksTo(questionId, ids), db.nextQuestionId, db.nextTagId)
    ensures NamesDistinct(tags) ==> NamesDistinct(Bumped(tags, ids))
  {
    BumpedCounts(tags, ids);
    LinksToAt(questionId, ids);
    var all := links + LinksTo(questionId, ids);
    forall i | 0 <= i < |all| ensures all[i].questionId < db.nextQuestionId && all[i].tagId < db.nextTagId {
      if i >= |links| {
        assert all[i] == LinksTo(questionId, ids)[i - |links|];
      }
    }
  }

  /** One more known name: one more usage bump and one more link. */
  lemma LinkStep(tags0: map<nat, Tag>, links0: seq<QuestionTag>, n: nat, questionId: nat, names: seq<string>, i: nat, t: nat)
    requires i <= |Resolve(tags0, n, names)| && i < |names|
    requires TagNamed(tags0, n, names[i]) == Some(t)
    ensures var all := Resolve(tags0, n, names);
      && i + 1 <= |all|
      && Bumped(tags0, all[..i + 1]) == BumpUsage(Bumped(tags0, all[..i]), t)
      && links0 + LinksTo(questionId, all[..i + 1]) == links0 + LinksTo(questionId, all[..i]) + [QuestionTag(questionId, t)]
  {
    var all := Resolve(tags0, n, names);
    ResolveStep(tags0, n, names, i, t);
    LinkOneMore(tags0, questionId, all[..i], t);
  }

  /** The tag loop of lines 48-62: for each name, look the tag up (the first
      unknown name ends the loop, and the caller answers 500), bump its usage
      count and link it to the question. */
  method LinkTags(db: Forum, questionId: nat, tagNames: seq<string>) returns (allKnown: bool)
    requires db.Valid()
    requires questionId < db.nextQuestionId
    modifies db
    ensures db.Valid()
    ensures var ids := Resolve(old(db.tags), old(db.nextTagId), tagNames);
      && allKnown == (|ids| == |tagNames|)
      && db.tags == Bumped(old(db.tags), ids)
      && db.questionTags == old(db.questionTags) + LinksTo(questionId, ids)
    ensures db.questions == old(db.questions) && db.answers == old(db.answers) && db.votes == old(db.votes)
    ensures db.nextQuestionId == old(db.nextQuestionId) && db.nextAnswerId == old(db.nextAnswerId)
    ensures db.nextVoteId == old(db.nextVoteId) && db.nextTagId == old(db.nextTagId)
    ensures old(db.UsageCountsMatch()) ==> db.UsageCountsMatch()
    ensures old(db.TagNamesUnique()) ==> db.TagNamesUnique()
  {
    var tags0, links0, n := db.tags, db.questionTags, db.nextTagId;
    allKnown := LinkEach(db, questionId, tagNames);
    ghost var all := Resolve(tags0, n, tagNames);
    ResolveFound(tags0, n, tagNames);
    LinkingKeepsRows(db, tags0, links0, questionId, all);
    if UsageAgrees(tags0, links0) {
      LinkingKeepsUsage(tags0, links0, questionId, all);
    }
  }

  /** The iterations of the tag loop, with what they write. */
  method LinkEach(db: Forum, questionId: nat, tagNames: seq<string>) returns (allKnown: bool)
    modifies db
    ensures var ids := Resolve(old(db.tags), old(db.nextTagId), tagNames);
      && allKnown == (|ids| == |tagNames|)
      && db.tags == Bumped(old(db.tags), ids)
      && db.questionTags == old(db.questionTags) + LinksTo(questionId, ids)
    ensures db.questions == old(db.questions) && db.answers == old(db.answers) && db.votes == old(db.votes)
    ensures db.nextQuestionId == old(db.nextQuestionId) && db.nextAnswerId == old(db.nextAnswerId)
    ensures db.nextVoteId == old(db.nextVoteId) && db.nextTagId == old(db.nextTagId)
  {
    var tags0, links0, n := db.tags, db.questionTags, db.nextTagId;
    ghost var all := Resolve(tags0, n, tagNames);
    var i := 0;
    while i < |tagNames|
      invariant 0 <= i <= |all|
      invariant db.tags == Bumped(tags0, all[..i])
      invariant db.questionTags == links0 + LinksTo(questionId, all[..i])
      invariant db.questions == old(db.questions) && db.answers == old(db.answers) && db.votes == old(db.votes)
      invariant db.nextQuestionId == old(db.nextQuestionId) && db.nextAnswerId == old(db.nextAnswerId)
      invariant db.nextVoteId == old(db.nextVoteId) && db.nextTagId == n
    {
      TagNamedAfterBumps(tags0, all[..i], n, tagNames[i]);
      var found := TagNamed(db.tags, db.nextTagId, tagNames[i]);
      if found.None? {
        ResolveStops(tags0, n, tagNames, i);
        break;
      }
      var t := found.value;
      LinkStep(tags0, links0, n, questionId, tagNames, i, t);
      db.tags := BumpUsage(db.tags, t);
      db.questionTags := db.questionTags + [QuestionTag(questionId, t)];
      i := i + 1;
    }
    assert all[..i] == all;
    allKnown := i == |tagNames|;
  }

  /** `POST /questions`. `insertFails`: the question insert fails. The tag
      loop runs after the insert, so an unknown tag name answers 500 with the
      question, and the links and counts made for the names before it, left
      in place. */
  method CreateQuestion(db: Forum, userId: nat, title: string, body: string, tagNames: seq<string>, now: int,
                        insertFails: bool) returns (status: int, id: nat)
    requires db.Valid()
    modifies db
    ensures db.Valid()
    ensures var ids := Resolve(old(db.tags), old(db.nextTagId), tagNames);
      status == if !ValidQuestion(title, body, tagNames) then StatusBadRequest
                else if insertFails || |ids| < |tagNames| then StatusInternalError
                else StatusCreated
    ensures !ValidQuestion(title, body, tagNames) || insertFails ==> unchanged(db)
    ensures ValidQuestion(title, body, tagNames) && !insertFails ==>
      var ids := Resolve(old(db.tags), old(db.nextTagId), tagNames);
      && id == old(db.nextQuestionId)
      && db.questions == old(db.questions)[id := Question(id, userId, title, body, 0, 0, 0, false, now, now)]
      && db.nextQuestionId == id + 1
      && db.tags == Bumped(old(db.tags), ids)
      && db.questionTags == old(db.questionTags) + LinksTo(id, ids)
      && db.answers == old(db.answers) && db.votes == old(db.votes)
      && db.nextAnswerId == old(db.nextAnswerId) && db.nextVoteId == old(db.nextVoteId)
      && db.nextTagId == old(db.nextTagId)
    ensures old(db.UsageCountsMatch()) ==> db.UsageCountsMatch()
    ensures old(db.TagNamesUnique()) ==> db.TagNamesUnique()
    ensures old(db.AnswerCountsMatch()) ==> db.AnswerCountsMatch()
    ensures old(db.AcceptanceConsistent()) ==> db.AcceptanceConsistent()
    ensures old(db.VoteCountersMatch()) && Tally(old(db.votes), PostRef(QuestionPost, old(db.nextQuestionId))) == 0
            ==> db.VoteCountersMatch()
  {
    id := 0;
    if !ValidQuestion(title, body, tagNames) {
      return StatusBadRequest, id;
    }
    if insertFails {
      return StatusInternalError, id;
    }
    id := db.nextQuestionId;
    var q := Question(id, userId, title, body, 0, 0, 0, false, now, now);
    NewQuestionKeepsInvariants(db.questions, db.answers, db.votes, db.tags, id, db.nextAnswerId, db.nextTagId, q);
    db.questions := db.questions[id := q];
    db.nextQuestionId := db.nextQuestionId + 1;
    var allKnown := LinkTags(db, id, tagNames);
    status := if allKnown then StatusCreated else StatusInternalError;
  }

  /** Answers only point at ids already handed out, so a new question starts
      with none. */
  lemma NewQuestionHasNoAnswers(answers: map<nat, Answer>, nextQuestionId: nat)
    requires forall k :: k in answers ==> answers[k].questionId < nextQuestionId
    ensures AnswerIdsOf(answers, nextQuestionId) == {}
  {
  }

  /** A new question under the next serial id, unanswered, unsolved and
      without votes, keeps the rows keyed, every answer count right,
      acceptance consistent, and every counter matching while no ledger row
      already points at its id. */
  lemma NewQuestionKeepsInvariants(questions: map<nat, Question>, answers: map<nat, Answer>, votes: seq<Vote>,
                                   tags: map<nat, Tag>, nq: nat, na: nat, nt: nat, q: Question)
    requires Keyed(questions, answers, tags, nq, na, nt)
    requires q.id == nq && q.answerCount == 0 && q.votes == 0 && !q.isSolved
    ensures Keyed(questions[nq := q], answers, tags, nq + 1, na, nt)
    ensures AnswerCountsAgree(questions, answers) ==> AnswerCountsAgree(questions[nq := q], answers)
    ensures AcceptanceAgrees(questions, answers) ==> AcceptanceAgrees(questions[nq := q], answers)
    ensures CountersMatch(questions, answers, votes) && Tally(votes, PostRef(QuestionPost, nq)) == 0 ==>
      CountersMatch(questions[nq := q], answers, votes)
  {
    NewQuestionHasNoAnswers(answers, nq);
  }

  /** `PUT /questions/:id`: the author alone may rewrite title and body. The
      tag list is validated but not applied. */
  method UpdateQuestion(db: Forum, userId: nat, id: Option<nat>, title: string, body: string, tagNames: seq<string>,
                        now: int, updateFails: bool) returns (status: int)
    requires db.Valid()
    modifies db
    ensures db.Valid()
    ensures status == if id.None? || !ValidQuestion(title, body, tagNames) then StatusBadRequest
                      else if id.value !in old(db.questions) then StatusNotFound
                      else if old(db.questions)[id.value].userId != userId then StatusForbidden
                      else if updateFails then StatusInternalError
                      else StatusOK
    ensures status != StatusOK ==> unchanged(db)
    ensures status == StatusOK ==>
      && db.questions == old(db.questions)[id.value := old(db.questions)[id.value].(title := title, body := body, updatedAt := now)]
      && db.answers == old(db.answers) && db.votes == old(db.votes)
      && db.tags == old(db.tags) && db.questionTags == old(db.questionTags)
      && db.nextQuestionId == old(db.nextQuestionId) && db.nextAnswerId == old(db.nextAnswerId)
      && db.nextVoteId == old(db.nextVoteId) && db.nextTagId == old(db.nextTagId)
    ensures old(db.AnswerCountsMatch()) ==> db.AnswerCountsMatch()
    ensures old(db.AcceptanceConsistent()) ==> db.AcceptanceConsistent()
    ensures old(db.VoteCountersMatch()) ==> db.VoteCountersMatch()
  {
    if id.None? || !ValidQuestion(title, body, tagNames) {
      return StatusBadRequest;
    }
    var q := id.value;
    if q !in db.questions {
      return StatusNotFound;
    }
    if db.questions[q].userId != userId {
      return StatusForbidden;
    }
    if updateFails {
      return StatusInternalError;
    }
    db.questions := db.questions[q := db.questions[q].(title := title, body := body, updatedAt := now)];
    status := StatusOK;
  }

  /** `DELETE /questions/:id`: the author or an Admin removes the question.
      The rows that point at it (answers, votes, links) stay in this model. */
  method DeleteQuestion(db: Forum, userId: nat, role: Role, id: Option<nat>, deleteFails: bool) returns (status: int)
    requires db.Valid()
    modifies db
    ensures db.Valid()
    ensures status == if id.None? then StatusBadRequest
                      else if id.value !in old(db.questions) then StatusNotFound
                      else if old(db.questions)[id.value].userId != userId && !IsAdmin(role) then StatusForbidden
                      else if deleteFails then StatusInternalError
                      else StatusOK
    ensures status != StatusOK ==> unchanged(db)
    ensures status == StatusOK ==>
      && db.questions == old(db.questions) - {id.value}
      && db.answers == old(db.answers) && db.votes == old(db.votes)
      && db.tags == old(db.tags) && db.questionTags == old(db.questionTags)
      && db.nextQuestionId == old(db.nextQuestionId) && db.nextAnswerId == old(db.nextAnswerId)
      && db.nextVoteId == old(db.nextVoteId) && db.nextTagId == old(db.nextTagId)
    ensures old(db.AnswerCountsMatch()) ==> db.AnswerCountsMatch()
    ensures old(db.AcceptanceConsistent()) ==> db.AcceptanceConsistent()
    ensures old(db.VoteCountersMatch()) ==> db.VoteCountersMatch()
    ensures old(db.UsageCountsMatch()) ==> db.UsageCountsMatch()
  {
    if id.None? {
      return StatusBadRequest;
    }
    var q := id.value;
    if q !in db.questions {
      return StatusNotFound;
    }
    if db.questions[q].userId != userId && !IsAdmin(role) {
      return StatusForbidden;
    }
    if deleteFails {
      return StatusInternalError;
    }
    db.questions := db.questions - {q};
    status := StatusOK;
  }

  /** `SELECT t.* FROM tags t JOIN question_tags qt ON t.id = qt.tag_id WHERE
      qt.question_id = $1`: one row per link of the question, in link order. */
  function TagsOf(tags: map<nat, Tag>, links: seq<QuestionTag>, questionId: nat): (r: seq<Tag>)
    ensures forall t :: t in r ==> t in tags.Values
    ensures forall j :: 0 <= j < |links| && links[j].questionId == questionId && links[j].tagId in tags
              ==> tags[links[j].tagId] in r
    ensures forall t :: t in r ==>
      exists j :: 0 <= j < |links| && links[j].questionId == questionId && links[j].tagId in tags && tags[links[j].tagId] == t
  {
    if |links| == 0 then []
    else
      var rest := TagsOf(tags, links[1..], questionId);
      assert forall j :: 1 <= j < |links| ==> links[j] == links[1..][j - 1];
      if links[0].questionId == questionId && links[0].tagId in tags then [tags[links[0].tagId]] + rest else rest
  }

  /** A `question_tags` row that joins the question to a stored tag. */
  predicate JoinsQuestion(tags: map<nat, Tag>, questionId: nat, link: QuestionTag) {
    link.questionId == questionId && link.tagId in tags
  }

  /** The join yields one tag row per matching link, in link order. */
  lemma {:induction false} TagsOfPerLink(tags: map<nat, Tag>, links: seq<QuestionTag>, questionId: nat)
    ensures var own := Filter(links, l => JoinsQuestion(tags, questionId, l));
      var r := TagsOf(tags, links, questionId);
      && |r| == |own|
      && forall i :: 0 <= i < |r| ==> own[i].tagId in tags && r[i] == tags[own[i].tagId]
  {
    var keep := l => JoinsQuestion(tags, questionId, l);
    if |links| > 0 {
      TagsOfPerLink(tags, links[1..], questionId);
      var own := Filter(links, keep);
      var rest := Filter(links[1..], keep);
      var r := TagsOf(tags, links, questionId);
      var r0 := TagsOf(tags, links[1..], questionId);
      if keep(links[0]) {
        assert own == [links[0]] + rest;
        assert r == [tags[links[0].tagId]] + r0;
        forall i | 0 <= i < |r|
          ensures own[i].tagId in tags && r[i] == tags[own[i].tagId]
        {
          if i > 0 {
            assert own[i] == rest[i - 1] && r[i] == r0[i - 1];
          }
        }
      } else {
        assert own == rest;
        assert r == r0;
      }
    }
  }

  datatype QuestionView = QuestionView(question: Question, tags: seq<Tag>)

  /** `UPDATE questions SET view_count = view_count + 1 WHERE id = $1`. */
  function AddView(questions: map<nat, Question>, id: nat): (r: map<nat, Question>)
    ensures r.Keys == questions.Keys
    ensures forall q :: q in r ==>
      r[q] == if q == id then questions[q].(viewCount := questions[q].viewCount + 1) else questions[q]
  {
    if id in questions then questions[id := questions[id].(viewCount := questions[id].viewCount + 1)] else questions
  }

  /** `GET /questions/:id`: the view counter moves before the lookup, so the
      question is returned with this view counted. */
  method GetQuestion(db: Forum, id: Option<nat>) returns (r: Reply<QuestionView>)
    requires db.Valid()
    modifies db
    ensures db.Valid()
    ensures id.None? ==> r == Fail(StatusBadRequest) && unchanged(db)
    ensures id.Some? ==>
      && db.questions == AddView(old(db.questions), id.value)
      && (r.Ok? <==> id.value in old(db.questions))
      && (r.Fail? ==> r.status == StatusNotFound)
      && (r.Ok? ==>
            && r.value.question == old(db.questions)[id.value].(viewCount := old(db.questions)[id.value].viewCount + 1)
            && r.value.tags == TagsOf(db.tags, db.questionTags, id.value))
    ensures db.answers == old(db.answers) && db.votes == old(db.votes)
    ensures db.tags == old(db.tags) && db.questionTags == old(db.questionTags)
    ensures db.nextQuestionId == old(db.nextQuestionId) && db.nextAnswerId == old(db.nextAnswerId)
    ensures db.nextVoteId == old(db.nextVoteId) && db.nextTagId == old(db.nextTagId)
    ensures old(db.AnswerCountsMatch()) ==> db.AnswerCountsMatch()
    ensures old(db.AcceptanceConsistent()) ==> db.AcceptanceConsistent()
    ensures old(db.VoteCountersMatch()) ==> db.VoteCountersMatch()
  {
    if id.None? {
      return Fail(StatusBadRequest);
    }
    var q := id.value;
    db.questions := AddView(db.questions, q);
    if q !in db.questions {
      return Fail(StatusNotFound);
    }
    r := Ok(QuestionView(db.questions[q], TagsOf(db.tags, db.questionTags, q)));
  }

  /** The `answer_count` column of a listing row: `COUNT(DISTINCT a.id)` over
      the question's answers, which replaces the stored column of `q.*`. */
  function Counted(questions: map<nat, Question>, answers: map<nat, Answer>): (r: map<nat, Question>)
    ensures r.Keys == questions.Keys
    ensures forall k :: k in r ==> r[k] == questions[k].(answerCount := |AnswerIdsOf(answers, k)|)
  {
    map k | k in questions :: questions[k].(answerCount := |AnswerIdsOf(answers, k)|)
  }

  /** Recounting keeps each row's id, so a table keyed by id stays keyed by id. */
  lemma CountedKeyed(questions: map<nat, Question>, answers: map<nat, Answer>)
    requires forall k :: k in questions ==> questions[k].id == k
    ensures var counted := Counted(questions, answers);
      forall a, b :: a in counted && b in counted && counted[a] == counted[b] ==> a == b
  {
  }

  /** While every stored answer count is right, the counted rows are the
      stored rows. */
  lemma CountedIsStored(questions: map<nat, Question>, answers: map<nat, Answer>)
    requires AnswerCountsAgree(questions, answers)
    ensures Counted(questions, answers) == questions
  {
    var c := Counted(questions, answers);
    assert forall k :: k in c ==> c[k] == questions[k];
  }

  /** `ORDER BY q.created_at DESC`. */
  predicate NewestQuestionFirst(a: Question, b: Question) {
    a.createdAt >= b.createdAt
  }

  /** Every question, with its answers counted, newest first. */
  function QuestionListing(questions: map<nat, Question>, answers: map<nat, Answer>, nextId: nat): (r: seq<Question>)
    ensures forall x :: x in r ==> x in Counted(questions, answers).Values
    ensures forall k :: k in questions && k < nextId ==> Counted(questions, answers)[k] in r
    ensures SortedBy(r, NewestQuestionFirst)
    ensures multiset(r) == multiset(Scan(Counted(questions, answers), nextId))
    ensures (forall k :: k in questions ==> questions[k].id == k) ==> Distinct(r)
  {
    var counted := Counted(questions, answers);
    var rows := Scan(counted, nextId);
    assert TotalPreorder(NewestQuestionFirst);
    SortBySorted(rows, NewestQuestionFirst);
    SortByMembers(rows, NewestQuestionFirst);
    var r := SortBy(rows, NewestQuestionFirst);
    assert (forall k :: k in questions ==> questions[k].id == k) ==> Distinct(r) by {
      if forall k :: k in questions ==> questions[k].id == k {
        CountedKeyed(questions, answers);
        ScanDistinct(counted, nextId);
        DistinctPermutation(rows, r);
      }
    }
    r
  }

  /** `GET /questions?page&limit`. */
  function GetQuestions(db: Forum, page: Option<int>, limit: Option<int>): (r: Reply<seq<Question>>)
    reads db
    ensures var window := Page(QuestionListing(db.questions, db.answers, db.nextQuestionId),
                               page.GetOr(DefaultPage), limit.GetOr(DefaultQuestionLimit));
      && (r.Ok? <==> window.Some?)
      && (r.Fail? ==> r.status == StatusInternalError)
      && (r.Ok? ==> r.value == window.value)
  {
    match Page(QuestionListing(db.questions, db.answers, db.nextQuestionId),
               page.GetOr(DefaultPage), limit.GetOr(DefaultQuestionLimit))
    case None => Fail(StatusInternalError)
    case Some(w) => Ok(w)
  }

  /** A page of the listing holds at most `limit` questions, newest first; while
      the stored answer counts are right, every row is a stored question. */
  lemma QuestionsPage(db: Forum, page: Option<int>, limit: Option<int>)
    ensures var r := GetQuestions(db, page, limit);
      r.Ok? ==>
        && |r.value| <= limit.GetOr(DefaultQuestionLimit)
        && SortedBy(r.value, NewestQuestionFirst)
        && (forall i :: 0 <= i < |r.value| ==> r.value[i] in Counted(db.questions, db.answers).Values)
        && (db.AnswerCountsMatch() ==> forall i :: 0 <= i < |r.value| ==> r.value[i] in db.questions.Values)
  {
    var all := QuestionListing(db.questions, db.answers, db.nextQuestionId);
    if Page(all, page.GetOr(DefaultPage), limit.GetOr(DefaultQuestionLimit)).Some? {
      PageOfSorted(all, page.GetOr(DefaultPage), limit.GetOr(DefaultQuestionLimit), NewestQuestionFirst);
    }
    if db.AnswerCountsMatch() {
      CountedIsStored(db.questions, db.answers);
    }
  }
}
