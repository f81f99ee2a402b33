# Forum backend: a verified model of the handlers' database effects

This project models the Q&A forum backend's request handlers as operations
on an in-memory store of its five tables: questions, answers, the votes
ledger, tags, and the question-to-tag links. Each write handler is a
module-level method that takes the store, a `Store.Forum` object, as its
`db` parameter. It returns the HTTP status the handler answers with, and
its contract states the full new state of every table. The only methods of
`Forum` itself are the counter updates `AddToScore` and `RecordVote`. Each read
handler is a function of the store. It returns `Ok(rows)` or `Fail(status)`.

Modules:

- `Models`: the table rows, the roles, option and reply types, and the status codes.
- `Listing`: filtering, insertion sort by a comparator, LIMIT/OFFSET paging, and scanning a table in id order.
- `Collation`: the code-point lexicographic order on names, standing for `ORDER BY name` under the C collation.
- `Ledger`: the votes ledger. A vote is one of three steps: insert, toggle off (delete) or flip (retype). Its effect on a post's tally is proved here.
- `Store`: the `Forum` class, its invariants, and the counter updates.
- `VoteHandler`, `AnswerHandler`, `QuestionHandler` and `TagHandler`: one module per handler file.

The invariants kept by the store are:

- **Valid**: every row sits under its own id, below the next serial id, and links point below the next ids.
- **VoteCountersMatch**: each existing post's `votes` column equals the sum of its ledger rows.
- **OneVotePerKey**: at most one ledger row per (user, post).
- **AnswerCountsMatch**: each question's `answer_count` equals its number of answers.
- **AcceptanceConsistent**: at most one accepted answer per question, and a question with an accepted answer is solved.
- **TagNamesUnique**: no two tags share a name.
- **UsageCountsMatch**: each tag's `usage_count` equals its number of links.

Each write method states which invariants it keeps. Where a handler can
break one (a failed lookup, a failed statement after an earlier one
committed), the contract names that condition.

Database failures that a handler checks become boolean parameters, for
example `insertFails` or `lookupFails`. The model then covers both
branches. Statements whose errors the handler ignores are taken to
succeed. The clock (`time.Now`) is the parameter `now`. The caller's user
id and role, which middleware provides, are parameters too. A path
parameter that does not parse as an unsigned integer is `None`.
`?page`/`?limit` are `Option<int>`: `None` stands for an absent or empty
value, and takes the handler's default. A value that does not parse as an
integer is `Some(0)`, because `strconv.Atoi` then returns 0 and the handlers
ignore its error. A negative LIMIT or
OFFSET is refused by PostgreSQL, and the handlers report that as 500.

## Model

| member | source | states |
|---|---|---|
| VoteHandler.PostKindOf | handlers/vote_handler.go:25-27 | only "question" and "answer" are accepted, and each selects its own table |
| VoteHandler.Vote | handlers/vote_handler.go:13-91 | 400 exactly for a bad post type or direction, with nothing changed. Otherwise: an existing row with the same direction is deleted (200), one with the other direction is retyped (200), and with no row one is inserted (201) or the insert fails (500, nothing changed). The post's counter moves by the step's delta, a flip moves it by twice the direction, and counters-match and one-row-per-key are kept |
| Store.Forum.RecordVote | handlers/vote_handler.go:44-88 | one branch's ledger change followed by the counter update on the selected table; keeps Valid and counters-match |
| Store.Forum.AddToScore | handlers/vote_handler.go:49-53 | `votes = votes + delta` on the selected table only; every other table is unchanged |
| Store.AddQuestionVotes | handlers/vote_handler.go:50 | only the named question's `votes` changes, by exactly delta |
| Store.AddAnswerVotes | handlers/vote_handler.go:52 | only the named answer's `votes` changes, by exactly delta |
| Ledger.FindVote | handlers/vote_handler.go:37-40 | returns the first row owned by (user, post); None exactly when no row is owned |
| Ledger.TallyAfterStep | handlers/vote_handler.go:42-88 | each step changes the vote sum of the voted post by its delta, and no other post's sum |
| Store.StepKeepsCountersMatch | handlers/vote_handler.go:42-88 | applying a step to the ledger together with the counter update keeps every counter equal to its ledger sum |
| Ledger.StepKeepsOneVotePerKey | handlers/vote_handler.go:37-77 | after a lookup that succeeds, every step leaves at most one row per (user, post) |
| Ledger.StepKeepsOthers | handlers/vote_handler.go:44-77 | a step leaves every row not owned by the caller for that post untouched and in order |
| Ledger.StepKeepsRowsWellFormed | handlers/vote_handler.go:73-77 | inserted rows take the next serial id; ids stay unique and below the next id; directions stay in {1, -1} |
| Ledger.FlipMovesByTwo | handlers/vote_handler.go:61-62 | retyping a row to the other direction moves the counter by twice the new direction |
| Ledger.ToggleOffRestores | handlers/vote_handler.go:44-55 | voting twice in the same direction restores the original ledger, and the counter deltas cancel |
| Ledger.FlipAfterVote | handlers/vote_handler.go:56-67 | voting in the opposite direction retypes the row in place and moves the counter by -2 times the first direction |
| Ledger.RemoveByIdAt | handlers/vote_handler.go:46 | with unique ids, deleting by the found row's id removes exactly that row |
| Ledger.RetypeByIdAt | handlers/vote_handler.go:58-59 | with unique ids, updating by the found row's id changes exactly that row's type and time |
| VoteHandler.UserVotes | handlers/vote_handler.go:106-110 | the caller's rows, each exactly as often as in the ledger, and no one else's; newest first |
| VoteHandler.ReadRows | handlers/vote_handler.go:114-119 | reading succeeds exactly when every row has non-NULL post content; each row keeps its vote and its content |
| VoteHandler.GetUserVotes | handlers/vote_handler.go:94-125 | Ok exactly when the page window exists and every row in it has content, otherwise 500; the rows are the window's votes in order |
| VoteHandler.UserVotesPage | handlers/vote_handler.go:96-111 | a page has at most `limit` rows, all the caller's, all in the ledger, newest first |
| Listing.Page | handlers/vote_handler.go:96-111 | None exactly for a negative LIMIT or OFFSET; otherwise the rows from `(page-1)*limit`, at most `limit` of them |
| Listing.PageOfSorted | handlers/vote_handler.go:110-111 | a window of a sorted listing is sorted, holds at most `limit` rows, and only rows of the listing |
| Listing.Filter | handlers/vote_handler.go:109 | keeps exactly the rows satisfying the WHERE predicate, with their multiplicities |
| Listing.SortBySorted | handlers/vote_handler.go:110 | sorting by a total preorder yields a sorted sequence |
| Listing.InsertBySorted | handlers/vote_handler.go:110 | inserting into a sorted sequence keeps it sorted |
| Listing.SortByMembers | handlers/vote_handler.go:110 | sorting keeps the length and the members |
| Listing.SortBy | handlers/vote_handler.go:110 | sorting is a permutation of its input |
| Listing.Scan | handlers/question_handler.go:78 | the scan returns stored rows only, and every row with an id below the next id |
| Listing.KeysBelow | handlers/question_handler.go:78 | the keys below the next id, each once, in increasing order |
| Listing.ScanByKey | handlers/question_handler.go:78 | the scan has one row per key below the next id, and its i-th row is the row stored under the i-th such key, in increasing key order |
| Listing.ScanDistinct | handlers/question_handler.go:78 | when no two keys hold the same row (each row carries its own id), the scan returns each row at most once |
| Listing.FilterDistinct | handlers/vote_handler.go:109 | a WHERE clause never duplicates a row: filtering a duplicate-free sequence leaves it duplicate-free |
| Listing.DistinctPermutation | handlers/vote_handler.go:110 | ORDER BY never duplicates a row: a permutation of a duplicate-free sequence is duplicate-free |
| AnswerHandler.CreateAnswer | handlers/answer_handler.go:13-59 | 400 for a bad body or question id, 404 for a missing question, 500 when the insert fails, else 201. On 201: the new answer gets the next id with zero votes and not accepted, and the question's `answer_count` rises by one; the invariants are kept |
| AnswerHandler.NewAnswerKeepsCounts | handlers/answer_handler.go:46-56 | inserting the answer and bumping its question's count keeps the ids keyed and answer counts equal to answers |
| AnswerHandler.AddAnswerCount | handlers/answer_handler.go:56 | only the named question's `answer_count` changes, by exactly delta |
| AnswerHandler.UpdateAnswer | handlers/answer_handler.go:96-138 | 400, 404, 403 for a non-author, 500, else 200 changing only that answer's body and update time |
| AnswerHandler.DeleteAnswer | handlers/answer_handler.go:141-171 | 400, 404, 403 unless author or Admin, 500, else 200 removing the answer and decrementing its question's `answer_count`; the invariants are kept |
| AnswerHandler.RemovedAnswerKeepsCounts | handlers/answer_handler.go:162-168 | deleting the answer and lowering its question's count keeps answer counts equal to answers and keeps acceptance consistent |
| AnswerHandler.AcceptAnswer | handlers/answer_handler.go:174-213 | 400, 404 for a missing answer or question, 403 unless the question's author; then all of the question's answers are unaccepted. On 500 nothing is accepted; on 200 only this answer is accepted and the question is solved |
| AnswerHandler.MarkAccepted | handlers/answer_handler.go:200-210 | the clear, mark and solve statements, with the mark's failure leaving the clear in place |
| AnswerHandler.ClearAccepted | handlers/answer_handler.go:201 | exactly the answers of the question lose their accepted flag |
| AnswerHandler.AcceptIn | handlers/answer_handler.go:201-204 | among the question's answers only the chosen one is accepted (none when the mark failed); other questions' answers are unchanged |
| AnswerHandler.AcceptKeepsInvariants | handlers/answer_handler.go:200-210 | accepting keeps the ids keyed, answer counts, the one-accepted-answer rule, and vote counters |
| AnswerHandler.AnswerBeforeIsTotalPreorder | handlers/answer_handler.go:77 | `is_accepted DESC, votes DESC, created_at ASC` is a total preorder |
| AnswerHandler.AnswerRows | handlers/answer_handler.go:72-76 | the WHERE clause's rows: each stored answer of the question exactly as often as the table scan yields it, no other row, and each at most once when every answer is stored under its own id |
| AnswerHandler.AnswerListing | handlers/answer_handler.go:68-78 | the listing is a permutation of those rows in the ORDER BY order: exactly the question's stored answers, each at most once when every answer is stored under its own id |
| AnswerHandler.GetAnswers | handlers/answer_handler.go:62-93 | 400 for a bad question id; otherwise Ok with the page window of the listing, or 500 when the window is refused |
| AnswerHandler.AnswersPage | handlers/answer_handler.go:68-78 | a page has at most `limit` answers, all of the question, in order |
| QuestionHandler.Resolve | handlers/question_handler.go:49-55 | the loop's tag lookups stop at the first unknown name, so they resolve at most one id per name |
| QuestionHandler.ResolveFound | handlers/question_handler.go:49-55 | each resolved id is the tag found by its name; the first name not resolved is unknown |
| QuestionHandler.ResolveUnique | handlers/question_handler.go:49-55 | the lookup run is determined by those two facts |
| QuestionHandler.ResolveStep | handlers/question_handler.go:52-61 | a found name extends the resolved run by its tag |
| QuestionHandler.ResolveStops | handlers/question_handler.go:52-54 | an unknown name is where the resolved run ends |
| QuestionHandler.Bumped | handlers/question_handler.go:57 | bumping usage counts changes no keys |
| QuestionHandler.BumpedCounts | handlers/question_handler.go:57 | each tag's `usage_count` rises by the number of times its id was resolved; nothing else changes |
| QuestionHandler.TagNamedAfterBumps | handlers/question_handler.go:52-57 | usage bumps do not change which tag a name finds |
| QuestionHandler.LinksTo | handlers/question_handler.go:61 | one link per resolved id |
| QuestionHandler.LinksToAt | handlers/question_handler.go:61 | the j-th link joins the question to the j-th resolved tag |
| QuestionHandler.CountLinksTo | handlers/question_handler.go:61 | the new links to a tag number the times its id was resolved |
| QuestionHandler.LinkingKeepsUsage | handlers/question_handler.go:56-61 | bumping and linking the same ids keeps every usage count equal to its link count |
| QuestionHandler.LinkOneMore | handlers/question_handler.go:57-61 | one more iteration bumps one more tag and appends one more link |
| QuestionHandler.LinkingKeepsRows | handlers/question_handler.go:48-62 | the loop keeps the ids keyed, links below the next ids, and tag names distinct |
| QuestionHandler.LinkStep | handlers/question_handler.go:49-61 | one iteration's bump and link extend the state reached so far |
| QuestionHandler.LinkTags | handlers/question_handler.go:48-63 | the whole loop bumps and links exactly the tags resolved before the first unknown name, and reports whether every name was known; usage counts and unique names are kept |
| QuestionHandler.LinkEach | handlers/question_handler.go:48-63 | the loop's writes: the usage bumps and links for exactly the resolved run, whether every name was known, and no other table touched |
| QuestionHandler.CreateQuestion | handlers/question_handler.go:14-66 | 400 for invalid data, with nothing changed; 500 when the insert fails, with nothing changed; 500 after an unknown tag, keeping the question and the tags linked before it; else 201. The new question has the next id and zero counters; the invariants are kept |
| QuestionHandler.NewQuestionHasNoAnswers | handlers/question_handler.go:33-40 | a fresh question id has no answers |
| QuestionHandler.NewQuestionKeepsInvariants | handlers/question_handler.go:33-40 | inserting a zero-counter question keeps the ids keyed, answer counts, acceptance, and vote counters when its id has no dangling votes |
| QuestionHandler.UpdateQuestion | handlers/question_handler.go:157-201 | 400, 404, 403 for a non-author, 500, else 200 changing only title, body and update time |
| QuestionHandler.DeleteQuestion | handlers/question_handler.go:204-231 | 400, 404, 403 unless author or Admin, 500, else 200 removing only the question row |
| QuestionHandler.AddView | handlers/question_handler.go:112 | only that question's `view_count` rises by one |
| QuestionHandler.TagsOf | handlers/question_handler.go:132-139 | the question's tags: every linked tag, and each row is the tag of some link of the question |
| QuestionHandler.TagsOfPerLink | handlers/question_handler.go:132-139 | the join yields exactly one row per link of the question whose tag exists, in link order, and the i-th row is that link's tag |
| QuestionHandler.GetQuestion | handlers/question_handler.go:105-154 | 400 for a bad id; otherwise the view count is bumped first, then 404 for a missing question, else the question with its new view count and its tags |
| QuestionHandler.Counted | handlers/question_handler.go:76-81 | each row's `answer_count` is recomputed from the answers table |
| QuestionHandler.CountedIsStored | handlers/question_handler.go:76-81 | when the stored counts are right, the recomputed rows are the stored rows |
| QuestionHandler.QuestionListing | handlers/question_handler.go:75-84 | a permutation of the table scan (with recomputed count), newest first: every stored question, only those, each at most once when every question is stored under its own id |
| QuestionHandler.GetQuestions | handlers/question_handler.go:69-102 | Ok with the page window of the listing, or 500 when the window is refused |
| QuestionHandler.QuestionsPage | handlers/question_handler.go:70-83 | a page has at most `limit` rows, newest first, all stored questions when the counts agree |
| Store.TagNamed | handlers/question_handler.go:52 | a found id is a stored tag with that name |
| Store.TagNamedFirst | handlers/tag_handler.go:114 | the found tag is the lowest-id tag with the name, and None means no tag has the name |
| Store.TagNamedSameNames | handlers/question_handler.go:52 | the lookup depends only on the names |
| Store.ScoreKeepsKeyed | handlers/vote_handler.go:49-53 | a counter update keeps every row under its id |
| Store.AnswerIdsAfterInsert | handlers/answer_handler.go:46-56 | an inserted answer adds exactly its id to its question's answers |
| Store.AnswerIdsAfterRemove | handlers/answer_handler.go:162-168 | a deleted answer removes exactly its id from its question's answers |
| Store.AnswerIdsSameQuestions | handlers/answer_handler.go:201-204 | changes that keep each answer's question keep every question's answer set |
| TagHandler.CreateTag | handlers/tag_handler.go:93-134 | 403 unless Admin, 400 for bad name or description, 409 when the name is taken, 500 when the insert fails, else 201 adding a tag with the next id and zero usage; usage counts are kept, and unique names when the lookup did not fail |
| TagHandler.CountLinksNone | handlers/tag_handler.go:120-127 | a tag id no link points at has a link count of 0 |
| TagHandler.UpdateTag | handlers/tag_handler.go:137-179 | 403, 400, 404, 500, else 200 changing only the name and description; names stay unique only if no other tag had the new name |
| TagHandler.LinksWithoutTag | handlers/tag_handler.go:201 | exactly the links not to the tag survive |
| TagHandler.CountLinksWithoutTag | handlers/tag_handler.go:200-201 | the deleted tag's count drops to 0 and every other tag's count is unchanged |
| TagHandler.DeleteTag | handlers/tag_handler.go:182-210 | 403, 400, 404; then the links are removed; 500 keeps the tag, 200 removes it; usage counts are kept except on 500, and names stay unique |
| TagHandler.GetTag | handlers/tag_handler.go:39-52 | Ok exactly for a stored id, with the stored row; 400 for a bad id, 404 for a missing one |
| TagHandler.TagCounted | handlers/tag_handler.go:20-23 | each tag's `usage_count` is the count of its links |
| TagHandler.TagCountedIsStored | handlers/tag_handler.go:20-23 | when stored usage counts are right, the counted rows are the stored rows |
| TagHandler.MostUsedFirstIsTotalPreorder | handlers/tag_handler.go:24 | link count DESC then name ASC is a total preorder |
| Collation.NameLeTotal | handlers/tag_handler.go:24 | any two names are comparable |
| Collation.NameLeTransitive | handlers/tag_handler.go:24 | the name order is transitive |
| Collation.NameLeAntisymmetric | handlers/tag_handler.go:24 | names ordered both ways are equal |
| TagHandler.TagListing | handlers/tag_handler.go:19-26 | a permutation of the table scan with link counts, most linked first and then by name: every tag, only those, each at most once when every tag is stored under its own id |
| TagHandler.GetTags | handlers/tag_handler.go:14-36 | Ok with the page window of the listing, or 500 when the window is refused |
| TagHandler.TagsPage | handlers/tag_handler.go:15-25 | a page has at most `limit` tags, ordered by link count DESC then name ASC, each the stored tag with its link count |
| TagHandler.NameLastFirstIsTotalPreorder | handlers/tag_handler.go:24 | `name DESC` is a total preorder |
| TagHandler.TagListingAsWritten | handlers/tag_handler.go:19-26 | the listing under the ORDER BY as written: a permutation of the table scan sorted by name descending, each tag at most once when every tag is stored under its own id |
| TagHandler.GetTagsAsWritten | handlers/tag_handler.go:14-36 | the handler as written: Ok with the window of the name-descending listing, or 500 |
| TagHandler.ExampleRows | handlers/tag_handler.go:20-23 | the counted rows of the two-tag example |
| TagHandler.AsWrittenIgnoresLinkCount | handlers/tag_handler.go:24 | as written, the unlinked tag "beta" is listed before the linked tag "alpha" |
| TagHandler.IntendedPutsMostLinkedFirst | handlers/tag_handler.go:24 | with the intended order, "alpha" comes first |
| TagHandler.TaggedRows | handlers/tag_handler.go:65-73 | the questions linked to the tag (with recomputed answer count), each exactly as often as the table scan yields it, and only those; each at most once when every question is stored under its own id |
| TagHandler.TaggedListing | handlers/tag_handler.go:65-75 | a permutation of those rows, newest first, each at most once when every question is stored under its own id |
| TagHandler.GetQuestionsByTag | handlers/tag_handler.go:55-90 | 400 for a bad tag id; otherwise Ok with the page window, or 500 when the window is refused |
| TagHandler.TaggedPage | handlers/tag_handler.go:61-75 | a page has at most `limit` questions, newest first, each linked to the tag |

## Left out

- HTTP and the web framework: JSON body decoding and its 400, and response bodies. Only the status and the returned rows are modelled.
- The SQL driver and PostgreSQL themselves. Each query is modelled by its effect on the tables.
- Joins with the users table (`username`, `avatar_url`) are left out. The users table is not part of this model. A NULL username from the LEFT JOIN would fail the scan; that failure is not modelled.
- `SearchQuestions` is left out: its ranking uses pg_trgm similarity on floating point values.
- Authentication, middleware, `main.go` and the user handlers are left out. The caller's id and role are parameters, and the role set is the `Role` datatype.
- Concurrency and transactions are left out. Each handler runs alone, and its statements commit one by one.
- Foreign-key cascades are left out: deleting a question or an answer leaves its links and ledger rows in place. The schema is not part of this model.
- Unique constraints are left out: the schema is not part of this model, so two tags with the same name are possible after UpdateTag or a failed lookup.
- Integer widths are left out: ids, counters and the vote direction are unbounded integers, so the model has no overflow.
- Lookup errors other than a missing row are left out. In the Update, Delete and Accept handlers such an error also answers 404, which the model folds into "row not found".
- QuestionHandler.GetQuestion: the answers list is left out. Selecting answers with `username`/`avatar_url` into the answer struct depends on the driver's column mapping, which is not part of this model.
- QuestionHandler.LinkTags: the insert of a link and the usage bump are assumed to succeed, because the handler ignores their errors. A failed tag lookup of any kind counts as an unknown name.
- Store.TagNamed: when several tags share a name, the tag with the lowest id is the one found. PostgreSQL promises no particular row here.
- TagHandler.UpdateTag: the handler does not check that the new name is free, so its contract keeps unique names only under that condition.
- TagHandler.DeleteTag: on 500 the links are already deleted while the tag stays, so its usage count no longer matches. The contract states this case instead of the invariant.
- VoteHandler.Vote: keeps one row per key only when the lookup succeeds. A lookup error falls through to an insert, which can add a second row for the key.
- AnswerHandler.CreateAnswer, QuestionHandler.CreateQuestion: counters-match is kept only when no ledger rows already point at the new id. Rows can point there because votes on missing posts are accepted.
- Listing.Offset: the handlers compute `(page-1)*limit` in Go's 64-bit `int`, which can wrap for huge values. The model computes it on unbounded integers.
- Collation.NameLe: the C (code-point) collation is assumed. A database collation may order case and accents differently.
- Listing.SortBy: PostgreSQL leaves the order of rows that tie on every ORDER BY key unspecified. The model fixes it by insertion sort over the id-ordered scan: ties stay in id order. This applies to AnswerHandler.AnswerListing, QuestionHandler.QuestionListing, TagHandler.TagListing, TagHandler.TaggedListing and VoteHandler.UserVotes.
- Ledger.FindVote: takes the first matching row in ledger order. sqlx `Get` takes whichever row the database returns first, which is the same only while the ledger holds one row per key.

## Findings

| source | as written | input that shows it | evidently intended | confidence | as-written member | corrected member |
|---|---|---|---|---|---|---|
| handlers/tag_handler.go:24 | `ORDER BY 2 DESC` sorts by the second column of `t.*`. In the tags table (models/tag.go) that is `name`, not the computed `usage_count`, so tags are listed by name descending. | tags "alpha" with one link and "beta" with none: listed as beta, alpha | most linked first, then name ascending, as the line's comment says | not executed; assumes the tags table's columns are in the order of models/tag.go | TagHandler.AsWrittenIgnoresLinkCount | TagHandler.TagsPage |
