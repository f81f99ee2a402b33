/** Row shapes of the forum's tables (the records under models/), the caller's role and the
    status codes the handlers answer with. Ids are the tables' serial keys;
    integer column widths are not modelled (unbounded int/nat). */
module Models {

  datatype Option<T> = None | Some(value: T) {
    function GetOr(default: T): T {
      match this
      case Some(v) => v
      case None => default
    }
  }

  /** What a read handler answers: the rows, or a failure status. */
  datatype Reply<T> = Ok(value: T) | Fail(status: int)

  /** The four roles the user table admits (handlers/user_handler.go:192-197). */
  datatype Role = Member | Moderator | Streamer | Admin

  predicate IsAdmin(role: Role) { role == Admin }

  /** The `post_type` discriminator of a vote: which table `post_id` points into. */
  datatype PostKind = QuestionPost | AnswerPost

  datatype PostRef = PostRef(kind: PostKind, id: nat)

  datatype Question = Question(
    id: nat,
    userId: nat,
    title: string,
    body: string,
    votes: int,
    viewCount: nat,
    answerCount: int,
    isSolved: bool,
    createdAt: int,
    updatedAt: int)

  datatype Answer = Answer(
    id: nat,
    questionId: nat,
    userId: nat,
    body: string,
    votes: int,
    isAccepted: bool,
    createdAt: int,
    updatedAt: int)

  /** One row of the vote ledger; `direction` is the `type` column (+1 or -1). */
  datatype Vote = Vote(
    id: nat,
    userId: nat,
    post: PostRef,
    direction: int,
    createdAt: int)

  datatype Tag = Tag(
    id: nat,
    name: string,
    description: string,
    usageCount: nat,
    createdAt: int)

  /** One row of the question_tags link table. */
  datatype QuestionTag = QuestionTag(questionId: nat, tagId: nat)

  const StatusOK := 200
  const StatusCreated := 201
  const StatusBadRequest := 400
  const StatusForbidden := 403
  const StatusNotFound := 404
  const StatusConflict := 409
  const StatusInternalError := 500
}
