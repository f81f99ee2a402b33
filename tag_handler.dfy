/** handlers/tag_handler.go: the Admin-only tag administration (create, rename,
    delete with its links) and the tag reads (one tag, the tag listing, the
    questions under a tag). */
module TagHandler {
  import opened Models
  import opened Listing
  import opened Collation
  import opened Store
  import QuestionHandler

  const DefaultPage := 1
  const DefaultTagLimit := 20
  const DefaultQuestionLimit := 10

  /** `validate:"required,min=2,max=50"` on the name and `max=200` on the
      description (lengths counted in characters). */
  predicate ValidTag(name: string, description: string) {
    2 <= |name| <= 50 && |description| <= 200
  }

  /** No link points at the tag. */
  lemma {:induction false} CountLinksNone(links: seq<QuestionTag>, tagId: nat)
    requires forall i :: 0 <= i < |links| ==> links[i].tagId != tagId
    ensures CountLinks(links, tagId) == 0
  {
    if |links| > 0 {
      CountLinksNone(links[1..], tagId);
    }
  }

  /** `POST /tags`. `lookupFails`: the name lookup fails for a reason other
      than finding no row, which the handler takes as "no such tag";
      `insertFails`: the insert fails. */
  method CreateTag(db: Forum, role: Role, name: string, description: string, now: int,
                   lookupFails: bool, insertFails: bool) returns (status: int, id: nat)
    requires db.Valid()
    modifies db
    ensures db.Valid()
    ensures status == if !IsAdmin(role) then StatusForbidden
                      else if !ValidTag(name, description) then StatusBadRequest
                      else if !lookupFails && TagNamed(old(db.tags), old(db.nextTagId), name).Some? then StatusConflict
                      else if insertFails then StatusInternalError
                      else StatusCreated
    ensures status != StatusCreated ==> unchanged(db)
    ensures status == StatusCreated ==>
      && id == old(db.nextTagId)
      && db.tags == old(db.tags)[id := Tag(id, name, description, 0, now)]
      && db.nextTagId == id + 1
      && db.questions == old(db.questions) && db.answers == old(db.answers) && db.votes == old(db.votes)
      && db.questionTags == old(db.questionTags)
      && db.nextQuestionId == old(db.nextQuestionId) && db.nextAnswerId == old(db.nextAnswerId)
      && db.nextVoteId == old(db.nextVoteId)
    ensures old(db.UsageCountsMatch()) ==> db.UsageCountsMatch()
    ensures !lookupFails && old(db.TagNamesUnique()) ==> db.TagNamesUnique()
  {
    id := 0;
    if !IsAdmin(role) {
      return StatusForbidden, id;
    }
    if !ValidTag(name, description) {
      return StatusBadRequest, id;
    }
    var existing := if lookupFails then None else TagNamed(db.tags, db.nextTagId, name);
    if existing.Some? {
      return StatusConflict, id;
    }
    if insertFails {
      return StatusInternalError, id;
    }
    TagNamedFirst(db.tags, db.nextTagId, name);
    CountLinksNone(db.questionTags, db.nextTagId);
    id := db.nextTagId;
    db.tags := db.tags[id := Tag(id, name, description, 0, now)];
    db.nextTagId := db.nextTagId + 1;
    status := StatusCreated;
  }

  /** `PUT /tags/:id`: renames a tag. The new name is not checked against the
      other tags' names. */
  method UpdateTag(db: Forum, role: Role, id: Option<nat>, name: string, description: string,
                   updateFails: bool) returns (status: int)
    requires db.Valid()
    modifies db
    ensures db.Valid()
    ensures status == if !IsAdmin(role) then StatusForbidden
                      else if id.None? || !ValidTag(name, description) then StatusBadRequest
                      else if id.value !in old(db.tags) then StatusNotFound
                      else if updateFails then StatusInternalError
                      else StatusOK
    ensures status != StatusOK ==> unchanged(db)
    ensures status == StatusOK ==>
      && db.tags == old(db.tags)[id.value := old(db.tags)[id.value].(name := name, description := description)]
      && db.questions == old(db.questions) && db.answers == old(db.answers) && db.votes == old(db.votes)
      && db.questionTags == old(db.questionTags)
      && db.nextQuestionId == old(db.nextQuestionId) && db.nextAnswerId == old(db.nextAnswerId)
      && db.nextVoteId == old(db.nextVoteId) && db.nextTagId == old(db.nextTagId)
    ensures old(db.UsageCountsMatch()) ==> db.UsageCountsMatch()
    ensures old(db.TagNamesUnique()) && status == StatusOK &&
            (forall k :: k in old(db.tags) && k != id.value ==> old(db.tags)[k].name != name)
            ==> db.TagNamesUnique()
  {
    if !IsAdmin(role) {
      return StatusForbidden;
    }
    if id.None? || !ValidTag(name, description) {
      return StatusBadRequest;
    }
    var t := id.value;
    if t !in db.tags {
      return StatusNotFound;
    }
    if updateFails {
      return StatusInternalError;
    }
    db.tags := db.tags[t := db.tags[t].(name := name, description := description)];
    status := StatusOK;
  }

  /** `DELETE FROM question_tags WHERE tag_id = $1`: the links to other tags,
      in their order. */
  function LinksWithoutTag(links: seq<QuestionTag>, tagId: nat): (r: seq<QuestionTag>)
    ensures forall x :: x in r <==> x in links && x.tagId != tagId
  {
    if |links| == 0 then []
    else
      assert links == [links[0]] + links[1..];
      (if links[0].tagId == tagId then [] else [links[0]]) + LinksWithoutTag(links[1..], tagId)
  }

  /** Dropping a tag's links leaves it with none and every other tag with
      the links it had. */
  lemma {:induction false} CountLinksWithoutTag(links: seq<QuestionTag>, tagId: nat, k: nat)
    ensures CountLinks(LinksWithoutTag(links, tagId), k) == if k == tagId then 0 else CountLinks(links, k)
  {
    if |links| > 0 {
      CountLinksWithoutTag(links[1..], tagId, k);
      var rest := LinksWithoutTag(links[1..], tagId);
      if links[0].tagId != tagId {
        assert ([links[0]] + rest)[1..] == rest;
      } else {
        assert [] + rest == rest;
      }
    }
  }

  /** `DELETE /tags/:id`: the tag's links go first, then the tag. The link
      delete's error is ignored; when the tag delete fails (500) the links
      are already gone. */
  method DeleteTag(db: Forum, role: Role, id: Option<nat>, deleteFails: bool) returns (status: int)
    requires db.Valid()
    modifies db
    ensures db.Valid()
    ensures status == if !IsAdmin(role) then StatusForbidden
                      else if id.None? then StatusBadRequest
                      else if id.value !in old(db.tags) then StatusNotFound
                      else if deleteFails then StatusInternalError
                      else StatusOK
    ensures status != StatusOK && status != StatusInternalError ==> unchanged(db)
    ensures status == StatusOK || status == StatusInternalError ==>
      && db.questionTags == LinksWithoutTag(old(db.questionTags), id.value)
      && db.tags == (if status == StatusOK then old(db.tags) - {id.value} else old(db.tags))
      && db.questions == old(db.questions) && db.answers == old(db.answers) && db.votes == old(db.votes)
      && db.nextQuestionId == old(db.nextQuestionId) && db.nextAnswerId == old(db.nextAnswerId)
      && db.nextVoteId == old(db.nextVoteId) && db.nextTagId == old(db.nextTagId)
    ensures old(db.UsageCountsMatch()) && status != StatusInternalError ==> db.UsageCountsMatch()
    ensures old(db.TagNamesUnique()) ==> db.TagNamesUnique()
  {
    if !IsAdmin(role) {
      return StatusForbidden;
    }
    if id.None? {
      return StatusBadRequest;
    }
    var t := id.value;
    if t !in db.tags {
      return StatusNotFound;
    }
    ghost var links := db.questionTags;
    db.questionTags := LinksWithoutTag(db.questionTags, t);
    forall k | true
      ensures CountLinks(db.questionTags, k) == if k == t then 0 else CountLinks(links, k)
    {
      CountLinksWithoutTag(links, t, k);
    }
    assert forall i :: 0 <= i < |db.questionTags| ==> db.questionTags[i] in links;
    if deleteFails {
      return StatusInternalError;
    }
    db.tags := db.tags - {t};
    status := StatusOK;
  }

  /** `GET /tags/:id`. */
  function GetTag(db: Forum, id: Option<nat>): (r: Reply<Tag>)
    reads db
    ensures r.Ok? <==> id.Some? && id.value in db.tags
    ensures r.Fail? ==> r.status == if id.None? then StatusBadRequest else StatusNotFound
    ensures r.Ok? ==> r.value == db.tags[id.value]
    ensures r.Ok? && db.Valid() ==> r.value.id == id.value
  {
    match id
    case None => Fail(StatusBadRequest)
    case Some(t) => if t in db.tags then Ok(db.tags[t]) else Fail(StatusNotFound)
  }

  /** A listing row of `SELECT t.*, COUNT(qt.question_id) AS usage_count ...
      GROUP BY t.id`: the counted `usage_count`, read after the stored
      column of the same name, is the one the row keeps. */
  function TagCounted(tags: map<nat, Tag>, links: seq<QuestionTag>): (r: map<nat, Tag>)
    ensures r.Keys == tags.Keys
    ensures forall k :: k in r ==> r[k] == tags[k].(usageCount := CountLinks(links, k))
  {
    map k | k in tags :: tags[k].(usageCount := CountLinks(links, k))
  }

  /** While every stored usage count is right, the counted rows are the
      stored rows. */
  lemma TagCountedIsStored(tags: map<nat, Tag>, links: seq<QuestionTag>)
    requires UsageAgrees(tags, links)
    ensures TagCounted(tags, links) == tags
  {
    var c := TagCounted(tags, links);
    assert forall k :: k in c ==> c[k] == tags[k];
  }

  /** `ORDER BY usage_count DESC, t.name ASC`: the intended order of the
      listing, most linked first and ties by name. */
  predicate MostUsedFirst(a: Tag, b: Tag) {
    a.usageCount > b.usageCount || (a.usageCount == b.usageCount && NameLe(a.name, b.name))
  }

  lemma MostUsedFirstIsTotalPreorder()
    ensures TotalPreorder(MostUsedFirst)
  {
    forall a, b ensures MostUsedFirst(a, b) || MostUsedFirst(b, a) {
      NameLeTotal(a.name, b.name);
    }
    forall a, b, c | MostUsedFirst(a, b) && MostUsedFirst(b, c) ensures MostUsedFirst(a, c) {
      if a.usageCount == b.usageCount == c.usageCount {
        NameLeTransitive(a.name, b.name, c.name);
      }
    }
  }

  /** Every tag with its links counted, most linked first, ties by name. */
  function TagListing(tags: map<nat, Tag>, links: seq<QuestionTag>, nextId: nat): (r: seq<Tag>)
    ensures forall x :: x in r ==> x in TagCounted(tags, links).Values
    ensures forall k :: k in tags && k < nextId ==> TagCounted(tags, links)[k] in r
    ensures |r| == |Scan(TagCounted(tags, links), nextId)|
    ensures SortedBy(r, MostUsedFirst)
    ensures multiset(r) == multiset(Scan(TagCounted(tags, links), nextId))
    ensures (forall k :: k in tags ==> tags[k].id == k) ==> Distinct(r)
  {
    var counted := TagCounted(tags, links);
    var rows := Scan(counted, nextId);
    MostUsedFirstIsTotalPreorder();
    SortBySorted(rows, MostUsedFirst);
    SortByMembers(rows, MostUsedFirst);
    var r := SortBy(rows, MostUsedFirst);
    assert (forall k :: k in tags ==> tags[k].id == k) ==> Distinct(r) by {
      if forall k :: k in tags ==> tags[k].id == k {
        ScanDistinct(counted, nextId);
        DistinctPermutation(rows, r);
      }
    }
    r
  }

  /** `GET /tags?page&limit`, in the order the query's comment describes. */
  function GetTags(db: Forum, page: Option<int>, limit: Option<int>): (r: Reply<seq<Tag>>)
    reads db
    ensures var window := Page(TagListing(db.tags, db.questionTags, db.nextTagId),
                               page.GetOr(DefaultPage), limit.GetOr(DefaultTagLimit));
      && (r.Ok? <==> window.Some?)
      && (r.Fail? ==> r.status == StatusInternalError)
      && (r.Ok? ==> r.value == window.value)
  {
    match Page(TagListing(db.tags, db.questionTags, db.nextTagId), page.GetOr(DefaultPage), limit.GetOr(DefaultTagLimit))
    case None => Fail(StatusInternalError)
    case Some(w) => Ok(w)
  }

  /** A page of the tag listing holds at most `limit` tags, by link count
      descending and then by name; each row is a stored tag carrying its
      number of links. */
  lemma TagsPage(db: Forum, page: Option<int>, limit: Option<int>)
    requires db.Valid()
    ensures var r := GetTags(db, page, limit);
      r.Ok? ==>
        && |r.value| <= limit.GetOr(DefaultTagLimit)
        && (forall i, j :: 0 <= i < j < |r.value| ==>
              r.value[i].usageCount > r.value[j].usageCount ||
              (r.value[i].usageCount == r.value[j].usageCount && NameLe(r.value[i].name, r.value[j].name)))
        && (forall i :: 0 <= i < |r.value| ==>
              && r.value[i].id in db.tags
              && r.value[i] == db.tags[r.value[i].id].(usageCount := CountLinks(db.questionTags, r.value[i].id)))
  {
    var all := TagListing(db.tags, db.questionTags, db.nextTagId);
    var p, l := page.GetOr(DefaultPage), limit.GetOr(DefaultTagLimit);
    if Page(all, p, l).Some? {
      PageOfSorted(all, p, l, MostUsedFirst);
      var w := Page(all, p, l).value;
      var counted := TagCounted(db.tags, db.questionTags);
      forall i | 0 <= i < |w|
        ensures w[i].id in db.tags && w[i] == db.tags[w[i].id].(usageCount := CountLinks(db.questionTags, w[i].id))
      {
        assert w[i] in counted.Values;
        var k :| k in counted && counted[k] == w[i];
      }
    }
  }

  /** `ORDER BY 2 DESC, t.name ASC` as written: column 2 of `t.*, COUNT(...)`
      is `t.name`, so the listing runs by name descending. */
  predicate NameLastFirst(a: Tag, b: Tag) {
    NameLe(b.name, a.name)
  }

  lemma NameLastFirstIsTotalPreorder()
    ensures TotalPreorder(NameLastFirst)
  {
    forall a, b ensures NameLastFirst(a, b) || NameLastFirst(b, a) {
      NameLeTotal(a.name, b.name);
    }
    forall a, b, c | NameLastFirst(a, b) && NameLastFirst(b, c) ensures NameLastFirst(a, c) {
      NameLeTransitive(c.name, b.name, a.name);
    }
  }

  /** The tag listing as the query is written. */
  function TagListingAsWritten(tags: map<nat, Tag>, links: seq<QuestionTag>, nextId: nat): (r: seq<Tag>)
    ensures forall x :: x in r ==> x in TagCounted(tags, links).Values
    ensures forall k :: k in tags && k < nextId ==> TagCounted(tags, links)[k] in r
    ensures |r| == |Scan(TagCounted(tags, links), nextId)|
    ensures SortedBy(r, NameLastFirst)
    ensures multiset(r) == multiset(Scan(TagCounted(tags, links), nextId))
    ensures (forall k :: k in tags ==> tags[k].id == k) ==> Distinct(r)
  {
    var counted := TagCounted(tags, links);
    var rows := Scan(counted, nextId);
    NameLastFirstIsTotalPreorder();
    SortBySorted(rows, NameLastFirst);
    SortByMembers(rows, NameLastFirst);
    var r := SortBy(rows, NameLastFirst);
    assert (forall k :: k in tags ==> tags[k].id == k) ==> Distinct(r) by {
      if forall k :: k in tags ==> tags[k].id == k {
        ScanDistinct(counted, nextId);
        DistinctPermutation(rows, r);
      }
    }
    r
  }

  /** `GET /tags?page&limit` as the query is written. */
  function GetTagsAsWritten(db: Forum, page: Option<int>, limit: Option<int>): (r: Reply<seq<Tag>>)
    reads db
    ensures var window := Page(TagListingAsWritten(db.tags, db.questionTags, db.nextTagId),
                               page.GetOr(DefaultPage), limit.GetOr(DefaultTagLimit));
      && (r.Ok? <==> window.Some?)
      && (r.Fail? ==> r.status == StatusInternalError)
      && (r.Ok? ==> r.value == window.value)
  {
    match Page(TagListingAsWritten(db.tags, db.questionTags, db.nextTagId), page.GetOr(DefaultPage), limit.GetOr(DefaultTagLimit))
    case None => Fail(StatusInternalError)
    case Some(w) => Ok(w)
  }

  /** Two tags, "alpha" linked to one question and "beta" to none. */
  const ExampleTags: map<nat, Tag> := map[1 := Tag(1, "alpha", "", 1, 0), 2 := Tag(2, "beta", "", 0, 0)]
  const ExampleLinks: seq<QuestionTag> := [QuestionTag(1, 1)]

  lemma ExampleRows()
    ensures TagCounted(ExampleTags, ExampleLinks)[1] == Tag(1, "alpha", "", 1, 0)
    ensures TagCounted(ExampleTags, ExampleLinks)[2] == Tag(2, "beta", "", 0, 0)
    ensures |Scan(TagCounted(ExampleTags, ExampleLinks), 3)| == 2
  {
    var counted := TagCounted(ExampleTags, ExampleLinks);
    assert CountLinks(ExampleLinks, 1) == 1 && CountLinks(ExampleLinks, 2) == 0;
    assert Scan(counted, 1) == [];
  }

  /** The query as written lists "beta" first although "alpha" has more
      links. */
  lemma AsWrittenIgnoresLinkCount()
    ensures var asWritten := TagListingAsWritten(ExampleTags, ExampleLinks, 3);
      && |asWritten| == 2 && asWritten[0].name == "beta" && asWritten[1].name == "alpha"
      && asWritten[0].usageCount < asWritten[1].usageCount
  {
    var alpha, beta := Tag(1, "alpha", "", 1, 0), Tag(2, "beta", "", 0, 0);
    ExampleRows();
    var r := TagListingAsWritten(ExampleTags, ExampleLinks, 3);
    assert alpha in r && beta in r;
    assert NameLastFirst(r[0], r[1]);
    assert !NameLe("beta", "alpha");
  }

  /** The intended order lists "alpha", the tag with more links, first. */
  lemma IntendedPutsMostLinkedFirst()
    ensures TagListing(ExampleTags, ExampleLinks, 3)[0].name == "alpha"
  {
    var alpha, beta := Tag(1, "alpha", "", 1, 0), Tag(2, "beta", "", 0, 0);
    ExampleRows();
    var i := TagListing(ExampleTags, ExampleLinks, 3);
    assert alpha in i && beta in i;
    assert MostUsedFirst(i[0], i[1]);
  }

  /** The question has a `question_tags` row for the tag. */
  predicate Tagged(links: seq<QuestionTag>, tagId: nat, q: Question) {
    QuestionTag(q.id, tagId) in links
  }

  /** `WHERE qt.tag_id = $1 ... GROUP BY q.id`: the linked questions in a
      scan by id, each once, with their answers counted. */
  function TaggedRows(questions: map<nat, Question>, answers: map<nat, Answer>, links: seq<QuestionTag>,
                      tagId: nat, nextId: nat): (r: seq<Question>)
    ensures forall x :: x in r ==> x in QuestionHandler.Counted(questions, answers).Values && Tagged(links, tagId, x)
    ensures forall k :: k in questions && k < nextId && Tagged(links, tagId, questions[k]) ==>
      QuestionHandler.Counted(questions, answers)[k] in r
    ensures var scanned := multiset(Scan(QuestionHandler.Counted(questions, answers), nextId));
      forall x :: multiset(r)[x] == if Tagged(links, tagId, x) then scanned[x] else 0
    ensures (forall k :: k in questions ==> questions[k].id == k) ==> Distinct(r)
  {
    var counted := QuestionHandler.Counted(questions, answers);
    var all := Scan(counted, nextId);
    var r := Filter(all, q => Tagged(links, tagId, q));
    forall k | k in questions && k < nextId && Tagged(links, tagId, questions[k]) ensures counted[k] in r {
      assert counted[k].id == questions[k].id && counted[k] in all;
    }
    assert (forall k :: k in questions ==> questions[k].id == k) ==> Distinct(r) by {
      if forall k :: k in questions ==> questions[k].id == k {
        QuestionHandler.CountedKeyed(questions, answers);
        ScanDistinct(counted, nextId);
        FilterDistinct(all, q => Tagged(links, tagId, q));
      }
    }
    r
  }

  /** The questions linked to a tag, each once, with their answers counted,
      newest first (`GROUP BY q.id ... ORDER BY q.created_at DESC`). */
  function TaggedListing(questions: map<nat, Question>, answers: map<nat, Answer>, links: seq<QuestionTag>,
                         tagId: nat, nextId: nat): (r: seq<Question>)
    ensures forall x :: x in r ==> x in QuestionHandler.Counted(questions, answers).Values && Tagged(links, tagId, x)
    ensures forall k :: k in questions && k < nextId && Tagged(links, tagId, questions[k]) ==>
      QuestionHandler.Counted(questions, answers)[k] in r
    ensures SortedBy(r, QuestionHandler.NewestQuestionFirst)
    ensures multiset(r) == multiset(TaggedRows(questions, answers, links, tagId, nextId))
    ensures (forall k :: k in questions ==> questions[k].id == k) ==> Distinct(r)
  {
    var rows := TaggedRows(questions, answers, links, tagId, nextId);
    assert TotalPreorder(QuestionHandler.NewestQuestionFirst);
    SortBySorted(rows, QuestionHandler.NewestQuestionFirst);
    SortByMembers(rows, QuestionHandler.NewestQuestionFirst);
    var r := SortBy(rows, QuestionHandler.NewestQuestionFirst);
    assert (forall k :: k in questions ==> questions[k].id == k) ==> Distinct(r) by {
      if forall k :: k in questions ==> questions[k].id == k {
        DistinctPermutation(rows, r);
      }
    }
    r
  }

  /** `GET /tags/:tagId/questions?page&limit`. */
  function GetQuestionsByTag(db: Forum, tagId: Option<nat>, page: Option<int>, limit: Option<int>)
    : (r: Reply<seq<Question>>)
    reads db
    ensures tagId.None? ==> r == Fail(StatusBadRequest)
    ensures tagId.Some? ==>
      var window := Page(TaggedListing(db.questions, db.answers, db.questionTags, tagId.value, db.nextQuestionId),
                         page.GetOr(DefaultPage), limit.GetOr(DefaultQuestionLimit));
      && (r.Ok? <==> window.Some?)
      && (r.Fail? ==> r.status == StatusInternalError)
      && (r.Ok? ==> r.value == window.value)
  {
    match tagId
    case None => Fail(StatusBadRequest)
    case Some(t) =>
      match Page(TaggedListing(db.questions, db.answers, db.questionTags, t, db.nextQuestionId),
                 page.GetOr(DefaultPage), limit.GetOr(DefaultQuestionLimit))
      case None => Fail(StatusInternalError)
      case Some(w) => Ok(w)
  }

  /** A page of a tag's questions holds at most `limit` questions, newest
      first, each linked to the tag. */
  lemma TaggedPage(db: Forum, tagId: nat, page: Option<int>, limit: Option<int>)
    ensures var r := GetQuestionsByTag(db, Some(tagId), page, limit);
      r.Ok? ==>
        && |r.value| <= limit.GetOr(DefaultQuestionLimit)
        && (forall i, j :: 0 <= i < j < |r.value| ==> r.value[i].createdAt >= r.value[j].createdAt)
        && (forall i :: 0 <= i < |r.value| ==> QuestionTag(r.value[i].id, tagId) in db.questionTags)
  {
    var all := TaggedListing(db.questions, db.answers, db.questionTags, tagId, db.nextQuestionId);
    var p, l := page.GetOr(DefaultPage), limit.GetOr(DefaultQuestionLimit);
    if Page(all, p, l).Some? {
      var w := Page(all, p, l).value;
      PageOfSorted(all, p, l, QuestionHandler.NewestQuestionFirst);
      forall i | 0 <= i < |w| ensures QuestionTag(w[i].id, tagId) in db.questionTags {
        assert w[i] in all;
        assert Tagged(db.questionTags, tagId, w[i]);
      }
    }
  }
}
