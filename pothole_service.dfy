/**
 * `PotholeService`: creation, copy-on-update and deletion of potholes, and the read-only
 * listings, each mapped to responses. Every response draws its marker status at random; the
 * draws are the parameters `status` (one response) and `pick` (the i-th of a listing).
 */
module PotholeService {
  import opened Wrappers
  import opened Seqs
  import opened Entities
  import opened Errors
  import opened Dtos
  import opened PotholeQueries
  import opened Persistence

  // ---------------------------------------------------------------- create

  /** The pothole `createPothole` builds, before it gets its id; any coordinates are accepted. */
  function PotholeOf(req: CreatePotholeRequest, now: int): (p: Pothole)
    ensures p.id.None? && p.Position() == Coord(req.latitude, req.longitude)
    ensures p.description == req.description && p.imageUrl == req.imageUrl
    ensures p.address.None? && p.createdAt == now && p.updatedAt == now
  {
    Pothole(None, req.latitude, req.longitude, req.description, req.imageUrl, None, now, now)
  }

  /** `createPothole`: exactly one pothole is added, carrying the request's fields. */
  method CreatePothole(db: Store, req: CreatePotholeRequest, now: int, status: MarkerStatus)
    returns (resp: PotholeResponse, saved: Pothole)
    requires db.Valid()
    modifies db
    ensures db.Valid()
    ensures saved == PotholeOf(req, now).(id := Some(old(db.nextPotholeId)))
    ensures db.potholes == old(db.potholes) + [saved]
    ensures db.nextPotholeId == old(db.nextPotholeId) + 1
    ensures db.reports == old(db.reports) && db.nextReportId == old(db.nextReportId)
    ensures PotholeResponseFrom(saved, [], status) == Success(resp)
  {
    saved := db.InsertPothole(PotholeOf(req, now));
    resp := PotholeResponseFrom(saved, [], status).value;
  }

  // ---------------------------------------------------------------- update

  /**
   * The copy built by `updatePothole`. A present request field replaces the stored one, an
   * absent one keeps it. The constructor call passes no address, so the copy has none.
   */
  function MergePothole(p: Pothole, req: UpdatePotholeRequest, now: int): (m: Pothole)
    ensures m.id == p.id && m.Position() == p.Position() && m.createdAt == p.createdAt
    ensures m.updatedAt == now && m.address.None?
    ensures m.description == if req.description.Some? then req.description.value else p.description
    ensures m.imageUrl == if req.imageUrl.Some? then req.imageUrl else p.imageUrl
  {
    Pothole(p.id, p.latitude, p.longitude, req.description.GetOr(p.description),
            if req.imageUrl.Some? then req.imageUrl else p.imageUrl, None, p.createdAt, now)
  }

  /** An update can set an image but never clear one. */
  lemma MergeNeverClearsImage(p: Pothole, req: UpdatePotholeRequest, now: int)
    ensures p.imageUrl.Some? ==> MergePothole(p, req, now).imageUrl.Some?
    ensures MergePothole(p, req, now).imageUrl.None? <==> p.imageUrl.None? && req.imageUrl.None?
  {
  }

  /** With every request field absent, only `updatedAt` moves (for a pothole without an address). */
  lemma EmptyUpdateOnlyTouchesUpdatedAt(p: Pothole, now: int)
    requires p.address.None?
    ensures MergePothole(p, UpdatePotholeRequest(None, None), now) == p.(updatedAt := now)
  {
  }

  /** Applying the same update twice is applying it once (at the later time). */
  lemma MergePotholeIdempotent(p: Pothole, req: UpdatePotholeRequest, t1: int, t2: int)
    ensures MergePothole(MergePothole(p, req, t1), req, t2) == MergePothole(p, req, t2)
  {
  }

  /** `updatePothole`: not-found leaves everything as it was; otherwise the row is replaced by the merge. */
  method UpdatePothole(db: Store, id: int, req: UpdatePotholeRequest, now: int, status: MarkerStatus)
    returns (r: Result<PotholeResponse, Exception>)
    requires db.Valid()
    modifies db
    ensures db.Valid()
    ensures db.reports == old(db.reports)
    ensures db.nextPotholeId == old(db.nextPotholeId) && db.nextReportId == old(db.nextReportId)
    ensures FindPothole(old(db.potholes), id).None? ==>
              r == Failure(PotholeNotFound(Some(id))) && db.potholes == old(db.potholes)
    ensures FindPothole(old(db.potholes), id).Some? ==>
              var k := PotholeIndex(old(db.potholes), id).value;
              var m := MergePothole(old(db.potholes)[k], req, now);
              db.potholes == old(db.potholes)[k := m] && r == PotholeResponseFrom(m, [], status) && r.Success?
  {
    var k := PotholeIndex(db.potholes, id);
    if k.None? {
      return Failure(PotholeNotFound(Some(id)));
    }
    var m := MergePothole(db.potholes[k.value], req, now);
    db.UpdatePotholeAt(k.value, m);
    r := PotholeResponseFrom(m, [], status);
  }

  // ---------------------------------------------------------------- delete

  /**
   * `deletePothole`: not-found leaves everything as it was. A pothole some report points at
   * is refused by the foreign key `report.pothole_id`, and nothing changes; otherwise exactly
   * that row goes.
   */
  method DeletePothole(db: Store, id: int) returns (r: Result<(), Exception>)
    requires db.Valid()
    modifies db
    ensures db.Valid()
    ensures db.reports == old(db.reports)
    ensures db.nextPotholeId == old(db.nextPotholeId) && db.nextReportId == old(db.nextReportId)
    ensures FindPothole(old(db.potholes), id).None? ==>
              r == Failure(PotholeNotFound(Some(id))) && db.potholes == old(db.potholes)
    ensures FindPothole(old(db.potholes), id).Some? && Referenced(old(db.reports), id) ==>
              r.Failure? && r.error.DataIntegrityViolation? && db.potholes == old(db.potholes)
    ensures FindPothole(old(db.potholes), id).Some? && !Referenced(old(db.reports), id) ==>
              r.Success? && db.potholes == RemoveAt(old(db.potholes), PotholeIndex(old(db.potholes), id).value)
  {
    var k := PotholeIndex(db.potholes, id);
    if k.None? {
      return Failure(PotholeNotFound(Some(id)));
    }
    if exists i :: 0 <= i < |db.reports| && db.reports[i].potholeId == id {
      return Failure(DataIntegrityViolation(None));
    }
    db.DeletePotholeAt(k.value);
    r := Success(());
  }

  /** Deleting by id removes exactly the row with that id and keeps every other row. */
  lemma DeleteRemovesExactlyThatId(ps: seq<Pothole>, next: int, id: int)
    requires PotholeIdsOk(ps, next) && PotholeIndex(ps, id).Some?
    ensures forall x :: x in RemoveAt(ps, PotholeIndex(ps, id).value) <==> x in ps && x.id != Some(id)
  {
    var k := PotholeIndex(ps, id).value;
    var after := RemoveAt(ps, k);
    forall x ensures x in after <==> x in ps && x.id != Some(id) {
      if x in after {
        var j :| 0 <= j < |after| && after[j] == x;
        if j < k {
          assert ps[j] == x && ps[j].id.value < ps[k].id.value;
        } else {
          assert ps[j + 1] == x && ps[k].id.value < ps[j + 1].id.value;
        }
      }
      if x in ps && x.id != Some(id) {
        var j :| 0 <= j < |ps| && ps[j] == x;
        assert j != k;
        if j < k {
          assert after[j] == x;
        } else {
          assert after[j - 1] == x;
        }
      }
    }
  }

  // ---------------------------------------------------------------- reads

  /** Every row of `ps` has an id. */
  predicate AllIdentified(ps: seq<Pothole>) {
    forall i :: 0 <= i < |ps| ==> ps[i].id.Some?
  }

  /** A query result drawn from identified rows is identified. */
  lemma SubsetIdentified(sub: seq<Pothole>, ps: seq<Pothole>)
    requires multiset(sub) <= multiset(ps) && AllIdentified(ps)
    ensures AllIdentified(sub)
  {
    forall i | 0 <= i < |sub| ensures sub[i].id.Some? {
      assert sub[i] in multiset(sub);
    }
  }

  /** The responses of a listing carry the listed potholes' fields, position by position. */
  lemma ResponsesMirror(xs: seq<Pothole>, pick: nat -> MarkerStatus)
    requires AllIdentified(xs)
    ensures PotholeResponsesFrom(xs, pick).Success?
    ensures var v := PotholeResponsesFrom(xs, pick).value;
            |v| == |xs|
            && forall i :: 0 <= i < |xs| ==>
                 Some(v[i].id) == xs[i].id && v[i].latitude == xs[i].latitude && v[i].longitude == xs[i].longitude
                 && v[i].description == xs[i].description && v[i].imageUrl == xs[i].imageUrl
                 && v[i].createdAt == xs[i].createdAt && v[i].imageUrls == [] && v[i].distance.None?
  {
    var v := PotholeResponsesFrom(xs, pick).value;
    forall i | 0 <= i < |xs|
      ensures Some(v[i].id) == xs[i].id && v[i].latitude == xs[i].latitude && v[i].longitude == xs[i].longitude
              && v[i].description == xs[i].description && v[i].imageUrl == xs[i].imageUrl
              && v[i].createdAt == xs[i].createdAt && v[i].imageUrls == [] && v[i].distance.None?
    {
      assert v[i] == PotholeResponseFrom(xs[i], [], pick(i)).value;
    }
  }

  /** Every row of a listing has a response carrying its id. */
  lemma ListsEveryRow(xs: seq<Pothole>, pick: nat -> MarkerStatus)
    requires AllIdentified(xs)
    ensures PotholeResponsesFrom(xs, pick).Success?
    ensures var v := PotholeResponsesFrom(xs, pick).value;
            forall p :: p in xs ==> exists i :: 0 <= i < |v| && Some(v[i].id) == p.id
  {
    ResponsesMirror(xs, pick);
    var v := PotholeResponsesFrom(xs, pick).value;
    forall p | p in xs ensures exists i :: 0 <= i < |v| && Some(v[i].id) == p.id {
      var i :| 0 <= i < |xs| && xs[i] == p;
      assert Some(v[i].id) == xs[i].id;
    }
  }

  /** `getAllPotholes`: the whole table, in table order. */
  function GetAllPotholes(ps: seq<Pothole>, pick: nat -> MarkerStatus): (r: Result<seq<PotholeResponse>, Exception>)
    ensures AllIdentified(ps) ==> r.Success? && |r.value| == |ps|
    ensures AllIdentified(ps) ==> forall i :: 0 <= i < |ps| ==> Some(r.value[i].id) == ps[i].id
  {
    if AllIdentified(ps) then
      ResponsesMirror(ps, pick);
      PotholeResponsesFrom(ps, pick)
    else
      PotholeResponsesFrom(ps, pick)
  }

  /** `getPotholeById`. */
  function GetPotholeById(ps: seq<Pothole>, id: int, status: MarkerStatus): (r: Result<PotholeResponse, Exception>)
    ensures r.Failure? <==> FindPothole(ps, id).None?
    ensures r.Failure? ==> r.error == PotholeNotFound(Some(id))
    ensures r.Success? ==> r.value.id == id && PotholeResponseFrom(FindPothole(ps, id).value, [], status) == r
  {
    match FindPothole(ps, id)
    case None => Failure(PotholeNotFound(Some(id)))
    case Some(p) => PotholeResponseFrom(p, [], status)
  }

  /** `getPotholesByLocationRange`: inside the inclusive box, newest first. */
  function GetPotholesByLocationRange(ps: seq<Pothole>, box: Box, pick: nat -> MarkerStatus)
    : (r: Result<seq<PotholeResponse>, Exception>)
    ensures AllIdentified(ps) ==> r.Success?
    ensures AllIdentified(ps) ==>
              forall i :: 0 <= i < |r.value| ==> box.Holds(r.value[i].latitude, r.value[i].longitude)
    ensures AllIdentified(ps) ==>
              forall i, j :: 0 <= i < j < |r.value| ==> r.value[i].createdAt >= r.value[j].createdAt
    ensures AllIdentified(ps) ==>
              forall p :: p in ps && box.Holds(p.latitude, p.longitude) ==>
                exists i :: 0 <= i < |r.value| && Some(r.value[i].id) == p.id
  {
    if AllIdentified(ps) then
      BoxResponses(ps, box, pick);
      SubsetIdentified(PotholeQueries.FindByLocationRange(ps, box), ps);
      ListsEveryRow(PotholeQueries.FindByLocationRange(ps, box), pick);
      PotholeResponsesFrom(PotholeQueries.FindByLocationRange(ps, box), pick)
    else
      PotholeResponsesFrom(PotholeQueries.FindByLocationRange(ps, box), pick)
  }

  lemma BoxResponses(ps: seq<Pothole>, box: Box, pick: nat -> MarkerStatus)
    requires AllIdentified(ps)
    ensures var r := PotholeResponsesFrom(PotholeQueries.FindByLocationRange(ps, box), pick);
            r.Success?
            && (forall i :: 0 <= i < |r.value| ==> box.Holds(r.value[i].latitude, r.value[i].longitude))
            && (forall i, j :: 0 <= i < j < |r.value| ==> r.value[i].createdAt >= r.value[j].createdAt)
  {
    var found := PotholeQueries.FindByLocationRange(ps, box);
    SubsetIdentified(found, ps);
    ResponsesMirror(found, pick);
    var v := PotholeResponsesFrom(found, pick).value;
    forall i | 0 <= i < |v| ensures box.Holds(v[i].latitude, v[i].longitude) {
      assert found[i] in found;
    }
  }

  /**
   * `getPotholesWithinRadius`: the mapping keeps the repository's length and its order by
   * distance; every response is within the radius.
   */
  function GetPotholesWithinRadius(ps: seq<Pothole>, latitude: real, longitude: real, radius: real,
                                   dist: Distance, pick: nat -> MarkerStatus)
    : (r: Result<seq<PotholeResponse>, Exception>)
    ensures AllIdentified(ps) ==>
              r.Success? && |r.value| == |FindPotholesWithinRadius(ps, Coord(latitude, longitude), radius, dist)|
    ensures AllIdentified(ps) ==>
              var c := Coord(latitude, longitude);
              (forall i :: 0 <= i < |r.value| ==>
                 dist(c, Coord(r.value[i].latitude, r.value[i].longitude)) <= radius)
              && (forall i, j :: 0 <= i < j < |r.value| ==>
                   dist(c, Coord(r.value[i].latitude, r.value[i].longitude))
                   <= dist(c, Coord(r.value[j].latitude, r.value[j].longitude)))
    ensures AllIdentified(ps) ==>
              forall p :: p in ps && dist(Coord(latitude, longitude), p.Position()) <= radius ==>
                exists i :: 0 <= i < |r.value| && Some(r.value[i].id) == p.id
  {
    var c := Coord(latitude, longitude);
    if AllIdentified(ps) then
      RadiusResponses(ps, c, radius, dist, pick);
      SubsetIdentified(FindPotholesWithinRadius(ps, c, radius, dist), ps);
      ListsEveryRow(FindPotholesWithinRadius(ps, c, radius, dist), pick);
      PotholeResponsesFrom(FindPotholesWithinRadius(ps, c, radius, dist), pick)
    else
      PotholeResponsesFrom(FindPotholesWithinRadius(ps, c, radius, dist), pick)
  }

  lemma RadiusResponses(ps: seq<Pothole>, c: Coord, radius: real, dist: Distance, pick: nat -> MarkerStatus)
    requires AllIdentified(ps)
    ensures var found := FindPotholesWithinRadius(ps, c, radius, dist);
            var r := PotholeResponsesFrom(found, pick);
            r.Success? && |r.value| == |found|
            && (forall i :: 0 <= i < |r.value| ==>
                  dist(c, Coord(r.value[i].latitude, r.value[i].longitude)) <= radius)
            && (forall i, j :: 0 <= i < j < |r.value| ==>
                  dist(c, Coord(r.value[i].latitude, r.value[i].longitude))
                  <= dist(c, Coord(r.value[j].latitude, r.value[j].longitude)))
  {
    var found := FindPotholesWithinRadius(ps, c, radius, dist);
    SubsetIdentified(found, ps);
    ResponsesMirror(found, pick);
    var v := PotholeResponsesFrom(found, pick).value;
    forall i | 0 <= i < |v| ensures Coord(v[i].latitude, v[i].longitude) == found[i].Position() {
    }
    forall i | 0 <= i < |v| ensures dist(c, Coord(v[i].latitude, v[i].longitude)) <= radius {
      assert found[i] in found;
    }
  }

  /** `searchPotholesByKeyword`: description contains the keyword, ignoring case. */
  function SearchPotholesByKeyword(ps: seq<Pothole>, keyword: string, pick: nat -> MarkerStatus)
    : (r: Result<seq<PotholeResponse>, Exception>)
    ensures AllIdentified(ps) ==> r.Success?
    ensures AllIdentified(ps) ==>
              forall i :: 0 <= i < |r.value| ==> Text.ContainsIgnoreCase(r.value[i].description, keyword)
    ensures AllIdentified(ps) ==>
              forall p :: p in ps && Text.ContainsIgnoreCase(p.description, keyword) ==>
                exists i :: 0 <= i < |r.value| && Some(r.value[i].id) == p.id
  {
    var found := FindByDescriptionContainingIgnoreCase(ps, keyword);
    if AllIdentified(ps) then
      SubsetIdentified(found, ps);
      ResponsesMirror(found, pick);
      ListsEveryRow(found, pick);
      MembersAt(found);
      PotholeResponsesFrom(found, pick)
    else
      PotholeResponsesFrom(found, pick)
  }

  /** `getPotholesWithImage`: every response has an image URL. */
  function GetPotholesWithImage(ps: seq<Pothole>, pick: nat -> MarkerStatus)
    : (r: Result<seq<PotholeResponse>, Exception>)
    ensures AllIdentified(ps) ==> r.Success?
    ensures AllIdentified(ps) ==> forall i :: 0 <= i < |r.value| ==> r.value[i].imageUrl.Some?
    ensures AllIdentified(ps) ==>
              forall p :: p in ps && p.imageUrl.Some? ==> exists i :: 0 <= i < |r.value| && Some(r.value[i].id) == p.id
  {
    var found := FindByImageUrlIsNotNull(ps);
    if AllIdentified(ps) then
      SubsetIdentified(found, ps);
      ResponsesMirror(found, pick);
      ListsEveryRow(found, pick);
      PotholeResponsesFrom(found, pick)
    else
      PotholeResponsesFrom(found, pick)
  }

  /** Some row of the table has this id and this creation time. */
  predicate HasRow(ps: seq<Pothole>, id: int, createdAt: int) {
    exists k :: 0 <= k < |ps| && ps[k].id == Some(id) && ps[k].createdAt == createdAt
  }

  /** Each response to a listing drawn from the table carries the id and timestamp of a row of it. */
  lemma ResponsesFromRows(top: seq<Pothole>, ps: seq<Pothole>, pick: nat -> MarkerStatus)
    requires AllIdentified(top) && multiset(top) <= multiset(ps)
    ensures PotholeResponsesFrom(top, pick).Success?
    ensures var v := PotholeResponsesFrom(top, pick).value;
            forall i :: 0 <= i < |v| ==> HasRow(ps, v[i].id, v[i].createdAt)
  {
    ResponsesMirror(top, pick);
    var v := PotholeResponsesFrom(top, pick).value;
    forall i | 0 <= i < |v| ensures HasRow(ps, v[i].id, v[i].createdAt) {
      assert top[i] in multiset(top);
      assert top[i] in ps;
      var k :| 0 <= k < |ps| && ps[k] == top[i];
      assert Some(v[i].id) == top[i].id && v[i].createdAt == top[i].createdAt;
    }
  }

  /**
   * The responses to the top ten: as many as the query returns, newest first, each with the id
   * and timestamp of a row of the table, and none older than a row left out.
   */
  lemma RecentAreTheNewest(ps: seq<Pothole>, pick: nat -> MarkerStatus)
    requires AllIdentified(ps)
    ensures var top := PotholeQueries.FindTop10ByOrderByCreatedAtDesc(ps);
            var r := PotholeResponsesFrom(top, pick);
            r.Success? && |r.value| == (if |ps| < 10 then |ps| else 10)
            && (forall i, j :: 0 <= i < j < |r.value| ==> r.value[i].createdAt >= r.value[j].createdAt)
            && (forall i :: 0 <= i < |r.value| ==> HasRow(ps, r.value[i].id, r.value[i].createdAt))
            && (forall q, i :: q in multiset(ps) - multiset(top) && 0 <= i < |r.value| ==>
                  r.value[i].createdAt >= q.createdAt)
  {
    var top := PotholeQueries.FindTop10ByOrderByCreatedAtDesc(ps);
    SubsetIdentified(top, ps);
    ResponsesMirror(top, pick);
    ResponsesFromRows(top, ps, pick);
    var v := PotholeResponsesFrom(top, pick).value;
    forall q, i | q in multiset(ps) - multiset(top) && 0 <= i < |v| ensures v[i].createdAt >= q.createdAt {
      assert v[i].createdAt == top[i].createdAt;
    }
  }

  /** `getRecentPotholes`: at most ten, newest first. */
  function GetRecentPotholes(ps: seq<Pothole>, pick: nat -> MarkerStatus)
    : (r: Result<seq<PotholeResponse>, Exception>)
    ensures AllIdentified(ps) ==> r.Success? && |r.value| == if |ps| < 10 then |ps| else 10
    ensures AllIdentified(ps) ==>
              forall i, j :: 0 <= i < j < |r.value| ==> r.value[i].createdAt >= r.value[j].createdAt
    ensures AllIdentified(ps) ==>
              forall i :: 0 <= i < |r.value| ==> HasRow(ps, r.value[i].id, r.value[i].createdAt)
    ensures AllIdentified(ps) ==>
              forall q, i :: q in multiset(ps) - multiset(PotholeQueries.FindTop10ByOrderByCreatedAtDesc(ps)) && 0 <= i < |r.value| ==>
                r.value[i].createdAt >= q.createdAt
  {
    if AllIdentified(ps) then
      RecentAreTheNewest(ps, pick);
      PotholeResponsesFrom(PotholeQueries.FindTop10ByOrderByCreatedAtDesc(ps), pick)
    else
      PotholeResponsesFrom(PotholeQueries.FindTop10ByOrderByCreatedAtDesc(ps), pick)
  }

  /** `existsPotholeById`. */
  predicate ExistsPotholeById(ps: seq<Pothole>, id: int) {
    FindPothole(ps, id).Some?
  }

  /** The existence check agrees with the lookup. */
  lemma ExistsAgreesWithLookup(ps: seq<Pothole>, id: int, status: MarkerStatus)
    ensures ExistsPotholeById(ps, id) <==> GetPotholeById(ps, id, status).Success?
    ensures ExistsPotholeById(ps, id) <==> HasPothole(ps, id)
  {
  }

  /** `getTotalPotholeCount`. */
  function GetTotalPotholeCount(ps: seq<Pothole>): nat {
    |ps|
  }

  /** In a well-formed table the count is the length of the full listing. */
  lemma CountIsLengthOfAll(ps: seq<Pothole>, next: int, pick: nat -> MarkerStatus)
    requires PotholeIdsOk(ps, next)
    ensures GetAllPotholes(ps, pick).Success? && GetTotalPotholeCount(ps) == |GetAllPotholes(ps, pick).value|
  {
  }
}
