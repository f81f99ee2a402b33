/** The vote ledger (the `votes` table) and the toggle/flip state machine of
    handlers/vote_handler.go:36-90, stated on the ledger as a value. A vote is
    identified by (user_id, post_id, post_type); per key it is absent, +1 or -1. */
module Ledger {
  import opened Models

  /** The row belongs to the key (user, post). */
  predicate Owns(v: Vote, userId: nat, post: PostRef) {
    v.userId == userId && v.post == post
  }

  function Weight(v: Vote, post: PostRef): int {
    if v.post == post then v.direction else 0
  }

  /** `SUM(type)` over the ledger rows that point at `post`: what the post's
      denormalised `votes` column is meant to cache. */
  function Tally(ledger: seq<Vote>, post: PostRef): int {
    if |ledger| == 0 then 0 else Weight(ledger[0], post) + Tally(ledger[1..], post)
  }

  lemma {:induction false} TallyConcat(a: seq<Vote>, b: seq<Vote>, post: PostRef)
    ensures Tally(a + b, post) == Tally(a, post) + Tally(b, post)
  {
    if |a| == 0 {
      assert a + b == b;
    } else {
      assert (a + b)[1..] == a[1..] + b;
      TallyConcat(a[1..], b, post);
    }
  }

  /** `SELECT * FROM votes WHERE user_id = $1 AND post_id = $2 AND post_type = $3`
      read with `Get`: the first matching row, if any. */
  function FindVote(ledger: seq<Vote>, userId: nat, post: PostRef): (r: Option<nat>)
    ensures r.Some? ==>
      && r.value < |ledger|
      && Owns(ledger[r.value], userId, post)
      && forall i :: 0 <= i < r.value ==> !Owns(ledger[i], userId, post)
    ensures r.None? ==> forall i :: 0 <= i < |ledger| ==> !Owns(ledger[i], userId, post)
  {
    if |ledger| == 0 then None
    else if Owns(ledger[0], userId, post) then Some(0)
    else match FindVote(ledger[1..], userId, post)
      case None => None
      case Some(i) => Some(i + 1)
  }

  /** At most one ledger row per (user, post_id, post_type). */
  ghost predicate OneVotePerKey(ledger: seq<Vote>) {
    forall i, j :: 0 <= i < j < |ledger| ==> !Owns(ledger[j], ledger[i].userId, ledger[i].post)
  }

  ghost predicate IdsUnique(ledger: seq<Vote>) {
    forall i, j :: 0 <= i < j < |ledger| ==> ledger[i].id != ledger[j].id
  }

  ghost predicate IdsBelow(ledger: seq<Vote>, n: nat) {
    forall i :: 0 <= i < |ledger| ==> ledger[i].id < n
  }

  /** `DELETE FROM votes WHERE id = $1`. */
  function RemoveById(ledger: seq<Vote>, id: nat): seq<Vote> {
    if |ledger| == 0 then []
    else (if ledger[0].id == id then [] else [ledger[0]]) + RemoveById(ledger[1..], id)
  }

  /** `UPDATE votes SET type = $1, created_at = $2 WHERE id = $3`. */
  function RetypeById(ledger: seq<Vote>, id: nat, direction: int, now: int): seq<Vote> {
    if |ledger| == 0 then []
    else
      [if ledger[0].id == id then ledger[0].(direction := direction, createdAt := now) else ledger[0]]
      + RetypeById(ledger[1..], id, direction, now)
  }

  lemma {:induction false} RemoveByIdAbsent(ledger: seq<Vote>, id: nat)
    requires forall i :: 0 <= i < |ledger| ==> ledger[i].id != id
    ensures RemoveById(ledger, id) == ledger
  {
    if |ledger| > 0 {
      RemoveByIdAbsent(ledger[1..], id);
      assert ledger == [ledger[0]] + ledger[1..];
    }
  }

  lemma {:induction false} RetypeByIdAbsent(ledger: seq<Vote>, id: nat, direction: int, now: int)
    requires forall i :: 0 <= i < |ledger| ==> ledger[i].id != id
    ensures RetypeById(ledger, id, direction, now) == ledger
  {
    if |ledger| > 0 {
      RetypeByIdAbsent(ledger[1..], id, direction, now);
      assert ledger == [ledger[0]] + ledger[1..];
    }
  }

  /** With unique ids, deleting by the found row's id deletes exactly that row. */
  lemma {:induction false} RemoveByIdAt(ledger: seq<Vote>, i: nat)
    requires IdsUnique(ledger) && i < |ledger|
    ensures RemoveById(ledger, ledger[i].id) == ledger[..i] + ledger[i + 1..]
  {
    var id := ledger[i].id;
    if i == 0 {
      RemoveByIdAbsent(ledger[1..], id);
    } else {
      RemoveByIdAt(ledger[1..], i - 1);
      assert ledger[1..][i - 1] == ledger[i];
      assert ledger[1..][..i - 1] + ledger[1..][i..] == ledger[1..i] + ledger[i + 1..];
      assert ledger[..i] == [ledger[0]] + ledger[1..i];
    }
  }

  /** With unique ids, updating by the found row's id updates exactly that row. */
  lemma {:induction false} RetypeByIdAt(ledger: seq<Vote>, i: nat, direction: int, now: int)
    requires IdsUnique(ledger) && i < |ledger|
    ensures RetypeById(ledger, ledger[i].id, direction, now)
         == ledger[i := ledger[i].(direction := direction, createdAt := now)]
  {
    var id := ledger[i].id;
    if i == 0 {
      RetypeByIdAbsent(ledger[1..], id, direction, now);
    } else {
      RetypeByIdAt(ledger[1..], i - 1, direction, now);
      assert ledger[1..][i - 1] == ledger[i];
      assert ledger[1..][i - 1 := ledger[i].(direction := direction, createdAt := now)]
          == ledger[i := ledger[i].(direction := direction, createdAt := now)][1..];
    }
  }

  /** The three branches of a vote call. */
  datatype Step = Insert | Remove(at: nat) | Flip(at: nat)

  /** The branch taken, given the row the lookup found (None: nothing found, or
      the lookup failed). */
  function StepFor(ledger: seq<Vote>, found: Option<nat>, direction: int): Step
    requires found.Some? ==> found.value < |ledger|
  {
    match found
    case None => Insert
    case Some(i) => if ledger[i].direction == direction then Remove(i) else Flip(i)
  }

  /** A Remove or Flip names a row of the caller's key. */
  ghost predicate StepFits(ledger: seq<Vote>, step: Step, userId: nat, post: PostRef) {
    step.Insert? || (step.at < |ledger| && Owns(ledger[step.at], userId, post))
  }

  /** The ledger after the branch: insert a new row, delete the found row, or
      give the found row the new direction and timestamp. */
  function Apply(ledger: seq<Vote>, step: Step, userId: nat, post: PostRef,
                 direction: int, now: int, newId: nat): seq<Vote>
    requires step.Insert? || step.at < |ledger|
  {
    match step
    case Insert => ledger + [Vote(newId, userId, post, direction, now)]
    case Remove(i) => ledger[..i] + ledger[i + 1..]
    case Flip(i) => ledger[i := ledger[i].(direction := direction, createdAt := now)]
  }

  /** What the branch adds to the post's counter: `+type`, `-stored type`,
      or `type - stored type`. */
  function Delta(ledger: seq<Vote>, step: Step, direction: int): int
    requires step.Insert? || step.at < |ledger|
  {
    match step
    case Insert => direction
    case Remove(i) => -ledger[i].direction
    case Flip(i) => direction - ledger[i].direction
  }

  /** Each branch moves the voted post's tally by exactly its counter delta and
      leaves every other post's tally alone. */
  lemma TallyAfterStep(ledger: seq<Vote>, step: Step, userId: nat, post: PostRef,
                       direction: int, now: int, newId: nat, p: PostRef)
    requires StepFits(ledger, step, userId, post)
    ensures Tally(Apply(ledger, step, userId, post, direction, now, newId), p)
         == Tally(ledger, p) + (if p == post then Delta(ledger, step, direction) else 0)
  {
    match step
    case Insert =>
      var v := Vote(newId, userId, post, direction, now);
      TallyConcat(ledger, [v], p);
      assert Tally([v], p) == Weight(v, p) + Tally([], p);
    case Remove(i) =>
      assert ledger == ledger[..i] + [ledger[i]] + ledger[i + 1..];
      TallyConcat(ledger[..i] + [ledger[i]], ledger[i + 1..], p);
      TallyConcat(ledger[..i], [ledger[i]], p);
      TallyConcat(ledger[..i], ledger[i + 1..], p);
      assert Tally([ledger[i]], p) == Weight(ledger[i], p) + Tally([], p);
    case Flip(i) =>
      var w := ledger[i].(direction := direction, createdAt := now);
      var after := ledger[i := w];
      assert after == ledger[..i] + [w] + ledger[i + 1..];
      assert ledger == ledger[..i] + [ledger[i]] + ledger[i + 1..];
      TallyConcat(ledger[..i] + [w], ledger[i + 1..], p);
      TallyConcat(ledger[..i], [w], p);
      TallyConcat(ledger[..i] + [ledger[i]], ledger[i + 1..], p);
      TallyConcat(ledger[..i], [ledger[i]], p);
      assert Tally([w], p) == Weight(w, p) + Tally([], p);
      assert Tally([ledger[i]], p) == Weight(ledger[i], p) + Tally([], p);
  }

  /** When the lookup worked, a call never creates a second row for a key. */
  lemma StepKeepsOneVotePerKey(ledger: seq<Vote>, userId: nat, post: PostRef,
                               direction: int, now: int, newId: nat)
    requires OneVotePerKey(ledger)
    ensures var step := StepFor(ledger, FindVote(ledger, userId, post), direction);
            OneVotePerKey(Apply(ledger, step, userId, post, direction, now, newId))
  {
    var step := StepFor(ledger, FindVote(ledger, userId, post), direction);
    var after := Apply(ledger, step, userId, post, direction, now, newId);
    match step
    case Insert =>
      forall i, j | 0 <= i < j < |after|
        ensures !Owns(after[j], after[i].userId, after[i].post)
      {
        if j == |ledger| {
          assert !Owns(ledger[i], userId, post);
        }
      }
    case Remove(k) =>
      forall i, j | 0 <= i < j < |after|
        ensures !Owns(after[j], after[i].userId, after[i].post)
      {
        var i' := if i < k then i else i + 1;
        var j' := if j < k then j else j + 1;
        assert after[i] == ledger[i'] && after[j] == ledger[j'];
      }
    case Flip(k) =>
  }

  /** The ledger rows of every other key (other users, other posts). */
  function OthersOf(ledger: seq<Vote>, userId: nat, post: PostRef): seq<Vote> {
    if |ledger| == 0 then []
    else (if Owns(ledger[0], userId, post) then [] else [ledger[0]]) + OthersOf(ledger[1..], userId, post)
  }

  lemma {:induction false} OthersConcat(a: seq<Vote>, b: seq<Vote>, userId: nat, post: PostRef)
    ensures OthersOf(a + b, userId, post) == OthersOf(a, userId, post) + OthersOf(b, userId, post)
  {
    if |a| == 0 {
      assert a + b == b;
    } else {
      assert (a + b)[1..] == a[1..] + b;
      OthersConcat(a[1..], b, userId, post);
    }
  }

  lemma OthersOfOwned(v: Vote, userId: nat, post: PostRef)
    requires Owns(v, userId, post)
    ensures OthersOf([v], userId, post) == []
  {
    assert OthersOf([v], userId, post) == [] + OthersOf([], userId, post);
  }

  /** Other users' votes, and the caller's votes on other posts, are unchanged,
      in content and in order. */
  lemma StepKeepsOthers(ledger: seq<Vote>, step: Step, userId: nat, post: PostRef,
                        direction: int, now: int, newId: nat)
    requires StepFits(ledger, step, userId, post)
    ensures OthersOf(Apply(ledger, step, userId, post, direction, now, newId), userId, post)
         == OthersOf(ledger, userId, post)
  {
    match step
    case Insert =>
      var v := Vote(newId, userId, post, direction, now);
      OthersConcat(ledger, [v], userId, post);
      OthersOfOwned(v, userId, post);
    case Remove(i) =>
      assert ledger == ledger[..i] + [ledger[i]] + ledger[i + 1..];
      OthersConcat(ledger[..i] + [ledger[i]], ledger[i + 1..], userId, post);
      OthersConcat(ledger[..i], [ledger[i]], userId, post);
      OthersConcat(ledger[..i], ledger[i + 1..], userId, post);
      OthersOfOwned(ledger[i], userId, post);
    case Flip(i) =>
      var w := ledger[i].(direction := direction, createdAt := now);
      assert ledger[i := w] == ledger[..i] + [w] + ledger[i + 1..];
      assert ledger == ledger[..i] + [ledger[i]] + ledger[i + 1..];
      OthersConcat(ledger[..i] + [w], ledger[i + 1..], userId, post);
      OthersConcat(ledger[..i], [w], userId, post);
      OthersConcat(ledger[..i] + [ledger[i]], ledger[i + 1..], userId, post);
      OthersConcat(ledger[..i], [ledger[i]], userId, post);
      OthersOfOwned(w, userId, post);
      OthersOfOwned(ledger[i], userId, post);
  }

  /** Every stored type is +1 or -1. */
  ghost predicate DirectionsValid(ledger: seq<Vote>) {
    forall i :: 0 <= i < |ledger| ==> ledger[i].direction == 1 || ledger[i].direction == -1
  }

  /** The ledger's rows have distinct ids below the next serial id, and each
      holds a +1 or -1. */
  ghost predicate WellFormed(ledger: seq<Vote>, nextId: nat) {
    IdsUnique(ledger) && IdsBelow(ledger, nextId) && DirectionsValid(ledger)
  }

  /** Row ids stay unique and below the next serial id (an insert takes that
      id), and every stored type stays +1 or -1. */
  lemma StepKeepsRowsWellFormed(ledger: seq<Vote>, step: Step, userId: nat, post: PostRef,
                                direction: int, now: int, newId: nat)
    requires step.Insert? || step.at < |ledger|
    requires WellFormed(ledger, newId)
    requires direction == 1 || direction == -1
    ensures WellFormed(Apply(ledger, step, userId, post, direction, now, newId), if step.Insert? then newId + 1 else newId)
  {
    var after := Apply(ledger, step, userId, post, direction, now, newId);
    if step.Remove? {
      var k := step.at;
      forall i, j | 0 <= i < j < |after| ensures after[i].id != after[j].id {
        var i' := if i < k then i else i + 1;
        var j' := if j < k then j else j + 1;
        assert after[i] == ledger[i'] && after[j] == ledger[j'];
      }
      forall i | 0 <= i < |after| ensures after[i].direction == 1 || after[i].direction == -1 {
        assert after[i] == ledger[if i < k then i else i + 1];
      }
    }
  }

  /** A flip always reverses a stored +1/-1, so it moves the counter by ±2. */
  lemma FlipMovesByTwo(ledger: seq<Vote>, i: nat, direction: int)
    requires DirectionsValid(ledger) && i < |ledger|
    requires direction == 1 || direction == -1
    requires StepFor(ledger, Some(i), direction) == Flip(i)
    ensures Delta(ledger, Flip(i), direction) == 2 * direction
  {
  }

  /** Toggle-off: a first vote followed by the same vote again restores the
      ledger exactly, and the two counter deltas cancel. */
  lemma ToggleOffRestores(ledger: seq<Vote>, userId: nat, post: PostRef, direction: int,
                          t1: int, t2: int, newId: nat)
    requires FindVote(ledger, userId, post) == None
    ensures var first := Apply(ledger, Insert, userId, post, direction, t1, newId);
            var again := StepFor(first, FindVote(first, userId, post), direction);
            && again == Remove(|ledger|)
            && Apply(first, again, userId, post, direction, t2, newId + 1) == ledger
            && Delta(ledger, Insert, direction) + Delta(first, again, direction) == 0
  {
    var first := Apply(ledger, Insert, userId, post, direction, t1, newId);
    var found := FindVote(first, userId, post);
    assert Owns(first[|ledger|], userId, post);
    assert found == Some(|ledger|);
    assert first[..|ledger|] == ledger;
  }

  /** Flip: a first vote followed by the opposite vote leaves one row with the
      new direction and timestamp in its place, and the second call moves the
      counter by twice the new direction (±2). */
  lemma FlipAfterVote(ledger: seq<Vote>, userId: nat, post: PostRef, direction: int,
                      t1: int, t2: int, newId: nat)
    requires FindVote(ledger, userId, post) == None
    requires direction == 1 || direction == -1
    ensures var first := Apply(ledger, Insert, userId, post, direction, t1, newId);
            var again := StepFor(first, FindVote(first, userId, post), -direction);
            var second := Apply(first, again, userId, post, -direction, t2, newId + 1);
            && again == Flip(|ledger|)
            && second == ledger + [Vote(newId, userId, post, -direction, t2)]
            && Delta(first, again, -direction) == -2 * direction
  {
    var first := Apply(ledger, Insert, userId, post, direction, t1, newId);
    assert Owns(first[|ledger|], userId, post);
    assert FindVote(first, userId, post) == Some(|ledger|);
  }
}
