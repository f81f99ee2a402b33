/** handlers/vote_handler.go: casting a vote (insert, toggle-off or flip, with
    the post's denormalised counter) and listing the caller's votes. */
module VoteHandler {
  import opened Models
  import opened Ledger
  import opened Listing
  import opened Store

  const DefaultPage := 1
  const DefaultVoteLimit := 10

  /** The accepted `post_type` strings and the table each selects. */
  function PostKindOf(postType: string): (r: Option<PostKind>)
    ensures r.Some? <==> postType == "question" || postType == "answer"
    ensures r == Some(QuestionPost) <==> postType == "question"
  {
    if postType == "question" then Some(QuestionPost)
    else if postType == "answer" then Some(AnswerPost)
    else None
  }

  predicate ValidDirection(direction: int) {
    direction == 1 || direction == -1
  }

  /** `POST /votes`. `lookupFails`: the existing-vote lookup returns an error
      other than "no rows"; `insertFails`: the insert of a new row fails. The
      other statements' errors are ignored by the handler and taken to succeed. */
  method Vote(db: Forum, userId: nat, postType: string, postId: nat, direction: int, now: int,
              lookupFails: bool, insertFails: bool) returns (status: int)
    requires db.Valid()
    modifies db
    ensures db.Valid()
    ensures status == StatusBadRequest <==> PostKindOf(postType).None? || !ValidDirection(direction)
    ensures status == StatusBadRequest ==> unchanged(db)
    ensures status != StatusBadRequest ==>
      var post := PostRef(PostKindOf(postType).value, postId);
      var found := if lookupFails then None else FindVote(old(db.votes), userId, post);
      var step := StepFor(old(db.votes), found, direction);
      var delta := Delta(old(db.votes), step, direction);
      && (status == StatusCreated <==> step.Insert? && !insertFails)
      && (status == StatusInternalError <==> step.Insert? && insertFails)
      && (status == StatusOK <==> !step.Insert?)
      && (status == StatusInternalError ==> unchanged(db))
      && (status != StatusInternalError ==>
            && db.votes == Apply(old(db.votes), step, userId, post, direction, now, old(db.nextVoteId))
            && db.nextVoteId == old(db.nextVoteId) + (if step.Insert? then 1 else 0)
            && db.questions == (if post.kind == QuestionPost then AddQuestionVotes(old(db.questions), postId, delta) else old(db.questions))
            && db.answers == (if post.kind == AnswerPost then AddAnswerVotes(old(db.answers), postId, delta) else old(db.answers))
            && (step.Flip? ==> delta == 2 * direction))
    ensures db.tags == old(db.tags) && db.questionTags == old(db.questionTags)
    ensures db.nextQuestionId == old(db.nextQuestionId) && db.nextAnswerId == old(db.nextAnswerId)
    ensures db.nextTagId == old(db.nextTagId)
    ensures old(db.VoteCountersMatch()) ==> db.VoteCountersMatch()
    ensures !lookupFails && old(OneVotePerKey(db.votes)) ==> OneVotePerKey(db.votes)
  {
    var kind := PostKindOf(postType);
    if kind.None? || !ValidDirection(direction) {
      return StatusBadRequest;
    }
    var post := PostRef(kind.value, postId);
    var before := db.votes;
    var found := if lookupFails then None else FindVote(db.votes, userId, post);
    // An existing row of the same type is deleted (toggle-off), one of the
    // other type is retyped (flip); without one a row is inserted.
    var step := StepFor(db.votes, found, direction);
    if step.Insert? && insertFails {
      return StatusInternalError;
    }
    db.RecordVote(step, userId, post, direction, now);
    status := if step.Insert? then StatusCreated else StatusOK;
    if step.Flip? {
      FlipMovesByTwo(before, step.at, direction);
    }
    if !lookupFails && OneVotePerKey(before) {
      StepKeepsOneVotePerKey(before, userId, post, direction, now, db.nextVoteId - (if step.Insert? then 1 else 0));
    }
  }

  /** `ORDER BY v.created_at DESC`. */
  predicate NewestVoteFirst(a: Vote, b: Vote) {
    a.createdAt >= b.createdAt
  }

  predicate CastBy(userId: nat, v: Vote) {
    v.userId == userId
  }

  /** All of a user's ledger rows, newest first. */
  function UserVotes(ledger: seq<Vote>, userId: nat): (r: seq<Vote>)
    ensures forall v :: multiset(r)[v] == if v.userId == userId then multiset(ledger)[v] else 0
    ensures SortedBy(r, NewestVoteFirst)
    ensures forall i :: 0 <= i < |r| ==> r[i].userId == userId && r[i] in ledger
  {
    var mine := Filter(ledger, v => CastBy(userId, v));
    assert TotalPreorder(NewestVoteFirst);
    SortBySorted(mine, NewestVoteFirst);
    var r := SortBy(mine, NewestVoteFirst);
    assert forall i :: 0 <= i < |r| ==> r[i] in multiset(mine);
    r
  }

  /** The `post_content` column: the question's title or the answer's body,
      NULL when the voted post no longer exists. */
  function PostContent(db: Forum, post: PostRef): Option<string>
    reads db
  {
    match post.kind
    case QuestionPost => if post.id in db.questions then Some(db.questions[post.id].title) else None
    case AnswerPost => if post.id in db.answers then Some(db.answers[post.id].body) else None
  }

  datatype VoteRow = VoteRow(vote: Vote, postContent: string)

  /** Reading the joined rows into `[]struct{Vote; PostContent string}`: fails
      as soon as a row's `post_content` is NULL. */
  function ReadRows(db: Forum, w: seq<Vote>): (r: Option<seq<VoteRow>>)
    reads db
    ensures r.Some? <==> forall i :: 0 <= i < |w| ==> PostContent(db, w[i].post).Some?
    ensures r.Some? ==>
      && |r.value| == |w|
      && forall i :: 0 <= i < |w| ==>
           r.value[i].vote == w[i] && PostContent(db, w[i].post) == Some(r.value[i].postContent)
  {
    if |w| == 0 then Some([])
    else match PostContent(db, w[0].post)
      case None => None
      case Some(content) =>
        match ReadRows(db, w[1..])
        case None => None
        case Some(rest) => Some([VoteRow(w[0], content)] + rest)
  }

  /** `GET /votes?page&limit`: one page of the caller's votes, newest first. The
      query fails (500) on a negative LIMIT or OFFSET, and when a row of the page
      has a NULL `post_content`, which cannot be read into a string. */
  function GetUserVotes(db: Forum, userId: nat, page: Option<int>, limit: Option<int>): (r: Reply<seq<VoteRow>>)
    reads db
    ensures var window := Page(UserVotes(db.votes, userId), page.GetOr(DefaultPage), limit.GetOr(DefaultVoteLimit));
      && (r.Ok? <==> window.Some? && forall i :: 0 <= i < |window.value| ==> PostContent(db, window.value[i].post).Some?)
      && (r.Fail? ==> r.status == StatusInternalError)
      && (r.Ok? ==>
            && |r.value| == |window.value|
            && forall i :: 0 <= i < |r.value| ==>
                 r.value[i].vote == window.value[i] && PostContent(db, window.value[i].post) == Some(r.value[i].postContent))
  {
    var p, l := page.GetOr(DefaultPage), limit.GetOr(DefaultVoteLimit);
    var all := UserVotes(db.votes, userId);
    match Page(all, p, l)
    case None => Fail(StatusInternalError)
    case Some(w) =>
      match ReadRows(db, w)
      case None => Fail(StatusInternalError)
      case Some(rows) => Ok(rows)
  }

  /** A page of the listing holds at most `limit` rows, every one of them the
      caller's and in the ledger, newest first. */
  lemma UserVotesPage(db: Forum, userId: nat, page: Option<int>, limit: Option<int>)
    ensures var r := GetUserVotes(db, userId, page, limit);
      r.Ok? ==>
        && |r.value| <= limit.GetOr(DefaultVoteLimit)
        && (forall i :: 0 <= i < |r.value| ==> r.value[i].vote.userId == userId && r.value[i].vote in db.votes)
        && (forall i, j :: 0 <= i < j < |r.value| ==> r.value[i].vote.createdAt >= r.value[j].vote.createdAt)
  {
    var p, l := page.GetOr(DefaultPage), limit.GetOr(DefaultVoteLimit);
    var all := UserVotes(db.votes, userId);
    if Page(all, p, l).Some? {
      PageOfSorted(all, p, l, NewestVoteFirst);
    }
  }
}
