/** Reordering a user's photos: the validation of the requested order, the two rounds of updates that
    keep a unique index at every statement, and what the schema's range check makes of them. */
module PhotoOrder {
  import opened Wrappers

  type UserId = nat
  type PhotoId = nat

  datatype Photo = Photo(user: UserId, position: int, deleted: bool)
  type Table = map<PhotoId, Photo>

  /** The range check on positions. The schema has zero to five. */
  datatype Range = Range(low: int, high: int)

  const SCHEMA := Range(0, 5)

  function ActivePhotos(t: Table, user: UserId): set<PhotoId> {
    set id | id in t && t[id].user == user && !t[id].deleted
  }

  /** The unique index on user and position over the photos that are not deleted. */
  predicate Unique(t: Table, user: UserId) {
    forall a, b | a in ActivePhotos(t, user) && b in ActivePhotos(t, user) && a != b :: t[a].position != t[b].position
  }

  predicate Collides(t: Table, id: PhotoId, user: UserId, position: int) {
    id in ActivePhotos(t, user) && exists other <- ActivePhotos(t, user) :: other != id && t[other].position == position
  }

  predicate InRange(r: Range, position: int) {
    r.low <= position <= r.high
  }

  datatype Update = Update(id: PhotoId, position: int)

  /** One UPDATE: no row is no error; a position outside the range or taken by another photo is. */
  function SetPosition(t: Table, r: Range, user: UserId, u: Update): Option<Table> {
    if u.id !in t || t[u.id].user != user then Some(t)
    else if !InRange(r, u.position) || Collides(t, u.id, user, u.position) then None
    else Some(t[u.id := t[u.id].(position := u.position)])
  }

  function Apply(t: Table, r: Range, user: UserId, updates: seq<Update>): Option<Table>
    decreases |updates|
  {
    if updates == [] then Some(t)
    else
      var before := Apply(t, r, user, updates[..|updates| - 1]);
      if before.None? then None else SetPosition(before.value, r, user, updates[|updates| - 1])
  }

  /** The position the plan's k-th update gives, for a list of n photos. */
  function PlannedPosition(n: int, k: int): int {
    if k < n then -(k + 1) else k - n
  }

  lemma ApplyNext(t: Table, r: Range, user: UserId, updates: seq<Update>, k: nat)
    requires k < |updates|
    ensures Apply(t, r, user, updates[..k + 1]) ==
            if Apply(t, r, user, updates[..k]).None? then None
            else SetPosition(Apply(t, r, user, updates[..k]).value, r, user, updates[k])
  {
    assert updates[..k + 1][..k] == updates[..k];
  }

  /** First every photo to a negative place, then every photo to its own. */
  function Plan(ids: seq<PhotoId>): (plan: seq<Update>)
    ensures |plan| == 2 * |ids|
  {
    var n := |ids|;
    seq(2 * n, k requires 0 <= k < 2 * n => Update(ids[if k < n then k else k - n], PlannedPosition(n, k)))
  }

  function Ids(list: seq<PhotoId>): set<PhotoId> {
    set id | id in list
  }

  predicate Distinct(list: seq<PhotoId>) {
    forall i, j | 0 <= i < j < |list| :: list[i] != list[j]
  }

  predicate Permutes(ids: seq<PhotoId>, photos: set<PhotoId>) {
    Distinct(ids) && Ids(ids) == photos
  }

  /** Where the plan has put the photos after its first `k` updates. */
  function PlaceAfter(t: Table, ids: seq<PhotoId>, k: nat, i: nat): int
    requires i < |ids| && ids[i] in t
  {
    if k > |ids| + i then i else if k > i then -(i + 1) else t[ids[i]].position
  }

  predicate PlacedAfter(t: Table, u: Table, user: UserId, ids: seq<PhotoId>, k: nat) {
    && u.Keys == t.Keys
    && (forall id <- t :: u[id] == t[id].(position := u[id].position))
    && (forall id <- t :: id !in ids ==> u[id] == t[id])
    && (forall i | 0 <= i < |ids| && ids[i] in t :: u[ids[i]].position == PlaceAfter(t, ids, k, i))
  }

  predicate Orderly(t: Table, user: UserId, ids: seq<PhotoId>) {
    && Permutes(ids, ActivePhotos(t, user)) && Unique(t, user)
    && (forall id <- ActivePhotos(t, user) :: t[id].position >= 0)
  }

  lemma PlacesDistinct(t: Table, u: Table, user: UserId, ids: seq<PhotoId>, k: nat)
    requires Orderly(t, user, ids) && PlacedAfter(t, u, user, ids, k) && k <= 2 * |ids|
    ensures Unique(u, user) && ActivePhotos(u, user) == ActivePhotos(t, user)
  {
    assert ActivePhotos(u, user) == ActivePhotos(t, user);
    forall a, b | a in ActivePhotos(u, user) && b in ActivePhotos(u, user) && a != b
      ensures u[a].position != u[b].position
    {
      assert a in ids && b in ids;
      var i :| 0 <= i < |ids| && ids[i] == a;
      var j :| 0 <= j < |ids| && ids[j] == b;
    }
  }

  lemma NextFree(t: Table, u: Table, user: UserId, ids: seq<PhotoId>, k: nat)
    requires Orderly(t, user, ids) && PlacedAfter(t, u, user, ids, k) && k < 2 * |ids|
    ensures !Collides(u, Plan(ids)[k].id, user, Plan(ids)[k].position)
    ensures Plan(ids)[k].id in u && u[Plan(ids)[k].id].user == user
  {
    PlacesDistinct(t, u, user, ids, k);
    var step := Plan(ids)[k];
    var at := if k < |ids| then k else k - |ids|;
    assert ids[at] in ActivePhotos(t, user);
    forall other | other in ActivePhotos(u, user) && other != step.id ensures u[other].position != step.position {
      assert other in ids;
      var i :| 0 <= i < |ids| && ids[i] == other;
    }
  }

  lemma NextPlaced(t: Table, u: Table, r: Range, user: UserId, ids: seq<PhotoId>, k: nat)
    requires Orderly(t, user, ids) && PlacedAfter(t, u, user, ids, k) && k < 2 * |ids|
    requires InRange(r, PlannedPosition(|ids|, k))
    ensures var after := SetPosition(u, r, user, Plan(ids)[k]);
            after.Some? && PlacedAfter(t, after.value, user, ids, k + 1)
  {
    NextFree(t, u, user, ids, k);
  }

  /** After every single update that the range allows, positions are pairwise distinct and are the ones
      the plan has reached. */
  lemma {:induction false} EveryUpdateKeepsUnique(t: Table, r: Range, user: UserId, ids: seq<PhotoId>, k: nat)
    requires Orderly(t, user, ids) && k <= 2 * |ids|
    requires forall i | 0 <= i < k :: InRange(r, PlannedPosition(|ids|, i))
    ensures var after := Apply(t, r, user, Plan(ids)[..k]);
            after.Some? && Unique(after.value, user) && PlacedAfter(t, after.value, user, ids, k)
    decreases k
  {
    if k > 0 {
      EveryUpdateKeepsUnique(t, r, user, ids, k - 1);
      ApplyNext(t, r, user, Plan(ids), k - 1);
      NextPlaced(t, Apply(t, r, user, Plan(ids)[..k - 1]).value, r, user, ids, k - 1);
      PlacesDistinct(t, Apply(t, r, user, Plan(ids)[..k]).value, user, ids, k);
    }
  }

  lemma {:induction false} StoppedStays(t: Table, r: Range, user: UserId, updates: seq<Update>, k: nat)
    requires k <= |updates| && Apply(t, r, user, updates[..k]).None?
    ensures Apply(t, r, user, updates).None?
    decreases |updates|
  {
    if k == |updates| {
      assert updates[..k] == updates;
    } else {
      assert updates[..|updates| - 1][..k] == updates[..k];
      StoppedStays(t, r, user, updates[..|updates| - 1], k);
    }
  }

  predicate Fits(r: Range, n: int) {
    n == 0 || (r.low <= -n && n - 1 <= r.high)
  }

  lemma FirstBeyond(r: Range, n: nat) returns (k: nat)
    requires n > 0 && !Fits(r, n)
    ensures k < 2 * n && !InRange(r, PlannedPosition(n, k))
    ensures forall i | 0 <= i < k :: InRange(r, PlannedPosition(n, i))
  {
    assert PlannedPosition(n, n - 1) == 0 - n && PlannedPosition(n, 2 * n - 1) == n - 1;
    assert !InRange(r, PlannedPosition(n, n - 1)) || !InRange(r, PlannedPosition(n, 2 * n - 1));
    k := 0;
    while InRange(r, PlannedPosition(n, k))
      invariant k < 2 * n
      invariant forall i | 0 <= i < k :: InRange(r, PlannedPosition(n, i))
      decreases 2 * n - k
    {
      k := k + 1;
    }
  }

  lemma ReorderFails(t: Table, r: Range, user: UserId, ids: seq<PhotoId>)
    requires Orderly(t, user, ids) && !Fits(r, |ids|)
    ensures Apply(t, r, user, Plan(ids)).None?
  {
    var plan := Plan(ids);
    var k := FirstBeyond(r, |ids|);
    EveryUpdateKeepsUnique(t, r, user, ids, k);
    NextFree(t, Apply(t, r, user, plan[..k]).value, user, ids, k);
    ApplyNext(t, r, user, plan, k);
    StoppedStays(t, r, user, plan, k + 1);
  }

  /** A reordering succeeds exactly when the range check admits the negative places as well as the final
      ones; it then leaves the i-th photo at position i and every other row as it was. */
  lemma ReorderExact(t: Table, r: Range, user: UserId, ids: seq<PhotoId>)
    requires Orderly(t, user, ids)
    ensures Apply(t, r, user, Plan(ids)).Some? <==> Fits(r, |ids|)
    ensures Apply(t, r, user, Plan(ids)).Some? ==>
              var u := Apply(t, r, user, Plan(ids)).value;
              && u.Keys == t.Keys
              && (forall i | 0 <= i < |ids| :: ids[i] in t && u[ids[i]] == t[ids[i]].(position := i))
              && (forall id | id in t && id !in ids :: u[id] == t[id])
  {
    if Fits(r, |ids|) {
      assert Plan(ids)[..2 * |ids|] == Plan(ids);
      EveryUpdateKeepsUnique(t, r, user, ids, 2 * |ids|);
      forall i | 0 <= i < |ids| ensures ids[i] in t {
        assert ids[i] in ActivePhotos(t, user);
      }
    } else {
      ReorderFails(t, r, user, ids);
    }
  }

  /** Under the schema's own range check no order of at least one photo can ever be applied. */
  lemma SchemaRefusesReorder(t: Table, user: UserId, ids: seq<PhotoId>)
    requires Orderly(t, user, ids)
    ensures Apply(t, SCHEMA, user, Plan(ids)).Some? <==> ids == []
  {
    ReorderExact(t, SCHEMA, user, ids);
  }

  // ----- a table that has changed since the order was checked -----

  predicate Owned(t: Table, user: UserId, id: PhotoId) {
    id in t && t[id].user == user
  }

  /** The i-th photo is at position i if it is the user's, nothing but positions of listed photos of the user
      has changed, and positions are still pairwise distinct. */
  predicate Placed(t: Table, u: Table, user: UserId, ids: seq<PhotoId>) {
    && u.Keys == t.Keys && Unique(u, user)
    && (forall i | 0 <= i < |ids| && Owned(t, user, ids[i]) :: u[ids[i]] == t[ids[i]].(position := i))
    && (forall id <- t :: !(id in ids && Owned(t, user, id)) ==> u[id] == t[id])
  }

  /** What has been placed after the first `k` updates that did not fail. */
  predicate PlacedSoFar(t: Table, u: Table, user: UserId, ids: seq<PhotoId>, k: nat) {
    && u.Keys == t.Keys && Unique(u, user)
    && (forall id <- t :: u[id] == t[id].(position := u[id].position))
    && (forall id <- t :: !(id in ids && Owned(t, user, id)) ==> u[id] == t[id])
    && (forall i | 0 <= i < |ids| && Owned(t, user, ids[i]) && k > |ids| + i :: u[ids[i]].position == i)
  }

  lemma NextSoFar(t: Table, u: Table, r: Range, user: UserId, ids: seq<PhotoId>, k: nat)
    requires Distinct(ids) && PlacedSoFar(t, u, user, ids, k) && k < 2 * |ids|
    ensures var after := SetPosition(u, r, user, Plan(ids)[k]);
            after.Some? ==> PlacedSoFar(t, after.value, user, ids, k + 1)
  {
    var step := Plan(ids)[k];
    assert step.id == ids[if k < |ids| then k else k - |ids|];
    SetKeepsUnique(u, r, user, step);
  }

  lemma SetKeepsUnique(u: Table, r: Range, user: UserId, step: Update)
    requires Unique(u, user)
    ensures var after := SetPosition(u, r, user, step); after.Some? ==> Unique(after.value, user)
  {
    var after := SetPosition(u, r, user, step);
    if after.Some? {
      assert ActivePhotos(after.value, user) == ActivePhotos(u, user);
    }
  }

  lemma {:induction false} StepsSoFar(t: Table, r: Range, user: UserId, ids: seq<PhotoId>, k: nat)
    requires Distinct(ids) && Unique(t, user) && k <= 2 * |ids|
    ensures var after := Apply(t, r, user, Plan(ids)[..k]);
            after.Some? ==> PlacedSoFar(t, after.value, user, ids, k)
    decreases k
  {
    if k == 0 {
      assert Plan(ids)[..0] == [];
    } else {
      StepsSoFar(t, r, user, ids, k - 1);
      ApplyNext(t, r, user, Plan(ids), k - 1);
      var before := Apply(t, r, user, Plan(ids)[..k - 1]);
      if before.Some? {
        NextSoFar(t, before.value, r, user, ids, k - 1);
      }
    }
  }

  /** Whatever happened between the check and the update: a list without repetitions that is applied puts the
      user's photos in it where it says, and changes nothing else. */
  lemma ReorderPlaces(t: Table, r: Range, user: UserId, ids: seq<PhotoId>)
    requires Distinct(ids) && Unique(t, user)
    ensures var after := Apply(t, r, user, Plan(ids)); after.Some? ==> Placed(t, after.value, user, ids)
  {
    StepsSoFar(t, r, user, ids, 2 * |ids|);
    assert Plan(ids)[..2 * |ids|] == Plan(ids);
  }

  /** The k-th update of the plan and what it does to the outcome. */
  lemma PlanStep(t: Table, r: Range, user: UserId, ids: seq<PhotoId>, k: nat, u: Table)
    requires k < 2 * |ids| && Apply(t, r, user, Plan(ids)[..k]) == Some(u)
    ensures var n := |ids|;
            var step := Update(ids[if k < n then k else k - n], PlannedPosition(n, k));
            && Apply(t, r, user, Plan(ids)[..k + 1]) == SetPosition(u, r, user, step)
            && (SetPosition(u, r, user, step).None? ==> Apply(t, r, user, Plan(ids)).None?)
  {
    ApplyNext(t, r, user, Plan(ids), k);
    if SetPosition(u, r, user, Plan(ids)[k]).None? {
      StoppedStays(t, r, user, Plan(ids), k + 1);
    }
  }

  // ----- the code -----

  class Repository {
    const range: Range
    var photos: Table

    constructor (range: Range)
      ensures this.range == range && photos == map[]
    {
      this.range, photos := range, map[];
    }

    method SetPhotoPosition(id: PhotoId, user: UserId, position: int) returns (ok: bool)
      modifies this
      ensures var after := SetPosition(old(photos), range, user, Update(id, position));
              ok == after.Some? && photos == if ok then after.value else old(photos)
    {
      if id in photos && photos[id].user == user {
        if position < range.low || position > range.high || Collides(photos, id, user, position) {
          return false;
        }
        photos := photos[id := photos[id].(position := position)];
      }
      ok := true;
    }

    /** Both rounds in one transaction; a failed update rolls everything back. */
    method ReorderPhotos(user: UserId, ids: seq<PhotoId>) returns (ok: bool)
      modifies this
      ensures var after := Apply(old(photos), range, user, Plan(ids));
              ok == after.Some? && photos == if ok then after.value else old(photos)
    {
      var before := photos;
      ghost var plan := Plan(ids);
      assert plan[..0] == [];
      for i := 0 to |ids|
        invariant Apply(before, range, user, plan[..i]) == Some(photos)
      {
        PlanStep(before, range, user, ids, i, photos);
        ok := SetPhotoPosition(ids[i], user, -(i + 1));
        if !ok {
          photos := before;
          return;
        }
      }
      for i := 0 to |ids|
        invariant Apply(before, range, user, plan[..|ids| + i]) == Some(photos)
      {
        PlanStep(before, range, user, ids, |ids| + i, photos);
        ok := SetPhotoPosition(ids[i], user, i);
        if !ok {
          photos := before;
          return;
        }
      }
      assert plan[..|ids| + |ids|] == plan;
      ok := true;
    }
  }

  datatype Answer = InvalidOrder | Reordered | UpdateFailed

  lemma DistinctSize(list: seq<PhotoId>)
    requires Distinct(list)
    ensures |Ids(list)| == |list|
  {
    if list == [] {
      assert Ids(list) == {};
    } else {
      var init, last := list[..|list| - 1], list[|list| - 1];
      DistinctSize(init);
      assert last !in init;
      assert Ids(list) == Ids(init) + {last};
    }
  }

  lemma IdsNext(list: seq<PhotoId>, i: nat)
    requires i < |list|
    ensures Ids(list[..i + 1]) == Ids(list[..i]) + {list[i]}
  {
    assert list[..i + 1] == list[..i] + [list[i]];
  }

  /** An id met before is a repetition; one not met before is none so far. */
  lemma DistinctNext(list: seq<PhotoId>, i: nat)
    requires i < |list| && Distinct(list[..i])
    ensures list[i] in Ids(list[..i]) ==> !Distinct(list)
    ensures list[i] !in Ids(list[..i]) ==> Distinct(list[..i + 1])
  {
    if list[i] in Ids(list[..i]) {
      var a :| 0 <= a < i && list[..i][a] == list[i];
      assert list[a] == list[i];
    } else {
      var init := list[..i];
      forall a, b | 0 <= a < b < i + 1 ensures list[a] != list[b] {
        assert init[a] in Ids(init) && (b < i ==> init[b] == list[b]);
      }
    }
  }

  /** As many ids as there are photos, none unknown and none repeated: a permutation. */
  lemma AllKnown(existing: seq<PhotoId>, ids: seq<PhotoId>)
    requires Distinct(existing) && Distinct(ids) && |ids| == |existing| && Ids(ids) <= Ids(existing)
    ensures Permutes(ids, Ids(existing))
  {
    DistinctSize(existing);
    DistinctSize(ids);
    SameSizeSubset(Ids(ids), Ids(existing));
  }

  lemma SameLength(existing: seq<PhotoId>, ids: seq<PhotoId>)
    requires Distinct(existing) && Permutes(ids, Ids(existing))
    ensures |ids| == |existing|
  {
    DistinctSize(existing);
    DistinctSize(ids);
  }

  /** The service's check, with its two sets, accepts exactly the permutations of the active photos. */
  method CheckOrder(existing: seq<PhotoId>, ids: seq<PhotoId>) returns (ok: bool)
    requires Distinct(existing)
    ensures ok <==> Permutes(ids, Ids(existing))
  {
    if |ids| != |existing| {
      if Permutes(ids, Ids(existing)) {
        SameLength(existing, ids);
      }
      return false;
    }
    var existingSet := {};
    for i := 0 to |existing|
      invariant existingSet == Ids(existing[..i])
    {
      IdsNext(existing, i);
      existingSet := existingSet + {existing[i]};
    }
    assert existing[..|existing|] == existing;
    var seen := {};
    for i := 0 to |ids|
      invariant seen == Ids(ids[..i]) && seen <= existingSet && Distinct(ids[..i])
    {
      IdsNext(ids, i);
      DistinctNext(ids, i);
      if ids[i] !in existingSet {
        assert ids[i] in Ids(ids);
        return false;
      }
      if ids[i] in seen {
        return false;
      }
      seen := seen + {ids[i]};
    }
    assert ids[..|ids|] == ids;
    AllKnown(existing, ids);
    ok := true;
  }

  lemma SameSizeSubset(a: set<PhotoId>, b: set<PhotoId>)
    requires a <= b && |a| == |b|
    ensures a == b
  {
    if x :| x in b && x !in a {
      assert a <= b - {x};
      SubsetSize(a, b - {x});
    }
  }

  lemma SubsetSize(a: set<PhotoId>, b: set<PhotoId>)
    requires a <= b
    ensures |a| <= |b|
  {
    if x :| x in a {
      SubsetSize(a - {x}, b - {x});
    }
  }

  /** The whole request. `existing` is what listing the active photos returned; the table may have changed
      since. Whatever it is by then, the order is refused exactly when it is not a permutation of that list,
      and the update happens as a whole or not at all. */
  method Reorder(repository: Repository, user: UserId, existing: seq<PhotoId>, ids: seq<PhotoId>)
    returns (answer: Answer)
    requires Distinct(existing) && Unique(repository.photos, user)
    modifies repository
    ensures answer.InvalidOrder? <==> !Permutes(ids, Ids(existing))
    ensures !answer.Reordered? ==> repository.photos == old(repository.photos)
    ensures answer.Reordered? ==> Placed(old(repository.photos), repository.photos, user, ids)
    ensures Orderly(old(repository.photos), user, ids) && Permutes(ids, Ids(existing)) ==>
              (answer.Reordered? <==> Fits(repository.range, |ids|))
  {
    var valid := CheckOrder(existing, ids);
    if !valid {
      return InvalidOrder;
    }
    if Orderly(repository.photos, user, ids) {
      ReorderExact(repository.photos, repository.range, user, ids);
    }
    ReorderPlaces(repository.photos, repository.range, user, ids);
    var ok := repository.ReorderPhotos(user, ids);
    answer := if ok then Reordered else UpdateFailed;
  }
}
