/**
 * `ReportService` of the newer package: report ingestion with the one-metre deduplication of
 * potholes, the copy-on-update of a report, deletion, and the read-only listings. The older
 * variant of the service shares the update, the deletion and the listings; its ingestion with
 * files stores the coordinate string as the address, which is the address chosen here when
 * the geocoder gives none.
 */
module ReportService {
  import opened Wrappers
  import opened Seqs
  import opened Entities
  import opened Errors
  import opened Dtos
  import opened PotholeQueries
  import opened ReportQueries
  import opened Persistence
  import opened FileStorage

  /** The radius of deduplication, in metres. */
  const Epsilon: real := 1.0
  /** The description of a pothole created for a report without one. */
  const DefaultPotholeDescription := "새로 발견된 포트홀"

  // ---------------------------------------------------------------- find or create

  /** The outcome of the deduplication query for a point. */
  datatype Resolution = Found(pothole: Pothole) | Created

  /** The first (nearest) hit of the radius query with radius `Epsilon`, if any. */
  function Resolve(ps: seq<Pothole>, c: Coord, dist: Distance): Resolution {
    var near := FindPotholesWithinRadius(ps, c, Epsilon, dist);
    if |near| > 0 then Found(near[0]) else Created
  }

  /** A found pothole is stored, within one metre, and no stored pothole is nearer. */
  lemma FoundIsNearest(ps: seq<Pothole>, c: Coord, dist: Distance)
    requires Resolve(ps, c, dist).Found?
    ensures Resolve(ps, c, dist).pothole in ps
    ensures dist(c, Resolve(ps, c, dist).pothole.Position()) <= Epsilon
    ensures forall q :: q in ps ==> dist(c, Resolve(ps, c, dist).pothole.Position()) <= dist(c, q.Position())
  {
    var near := FindPotholesWithinRadius(ps, c, Epsilon, dist);
    var p := near[0];
    assert p in near;
    forall q | q in ps ensures dist(c, p.Position()) <= dist(c, q.Position()) {
      if dist(c, q.Position()) <= Epsilon {
        assert q in near;
        var j :| 0 <= j < |near| && near[j] == q;
        if j > 0 {
          assert dist(c, near[0].Position()) <= dist(c, near[j].Position());
        }
      }
    }
  }

  /** A pothole is created only when every stored pothole is more than one metre away. */
  lemma CreatedOnlyWhenNothingNear(ps: seq<Pothole>, c: Coord, dist: Distance)
    ensures Resolve(ps, c, dist).Created? <==> forall q :: q in ps ==> dist(c, q.Position()) > Epsilon
  {
    var near := FindPotholesWithinRadius(ps, c, Epsilon, dist);
    if |near| > 0 {
      assert near[0] in near;
    }
  }

  /** The pothole created for a report at (`latitude`, `longitude`), before it gets its id. */
  function NewPothole(latitude: real, longitude: real, description: Option<string>, now: int): (p: Pothole)
    ensures p.id.None? && p.Position() == Coord(latitude, longitude)
    ensures p.description == if description.Some? then description.value else DefaultPotholeDescription
    ensures p.imageUrl.None? && p.address.None? && p.createdAt == now && p.updatedAt == now
  {
    Pothole(None, latitude, longitude, description.GetOr(DefaultPotholeDescription), None, None, now, now)
  }

  /** The pothole a report at `c` is linked to, given the table and the next identity value. */
  function ResolvedPothole(ps: seq<Pothole>, next: int, c: Coord, description: Option<string>,
                           now: int, dist: Distance): Pothole
  {
    match Resolve(ps, c, dist)
    case Found(p) => p
    case Created => NewPothole(c.latitude, c.longitude, description, now).(id := Some(next))
  }

  /** The pothole table after the deduplication step. */
  function PotholesAfter(ps: seq<Pothole>, next: int, c: Coord, description: Option<string>,
                         now: int, dist: Distance): seq<Pothole>
  {
    match Resolve(ps, c, dist)
    case Found(_) => ps
    case Created => ps + [ResolvedPothole(ps, next, c, description, now, dist)]
  }

  /** The identity counter after the deduplication step. */
  function NextAfter(ps: seq<Pothole>, next: int, c: Coord, dist: Distance): int {
    if Resolve(ps, c, dist).Created? then next + 1 else next
  }

  /**
   * The step adds at most one pothole; a new one is at the report's point and more than one
   * metre from every pothole that was stored before.
   */
  lemma {:induction false} ResolveAddsAtMostOne(ps: seq<Pothole>, next: int, c: Coord, description: Option<string>,
                                                now: int, dist: Distance)
    ensures var after := PotholesAfter(ps, next, c, description, now, dist);
            var p := ResolvedPothole(ps, next, c, description, now, dist);
            (after == ps && p in ps) || (after == ps + [p] && p.Position() == c && p.id == Some(next)
                                        && forall q :: q in ps ==> dist(c, q.Position()) > Epsilon)
  {
    CreatedOnlyWhenNothingNear(ps, c, dist);
    if Resolve(ps, c, dist).Found? {
      FoundIsNearest(ps, c, dist);
    }
  }

  /**
   * Sequential idempotence: once a report at `c` has been taken in, a second report at the
   * same point (with any description, at any time) is linked to the same pothole and adds no
   * pothole. This needs the distance from a point to itself to be zero.
   */
  lemma SamePointSamePothole(ps: seq<Pothole>, next: int, c: Coord, d1: Option<string>, t1: int,
                             d2: Option<string>, t2: int, dist: Distance)
    requires dist(c, c) == 0.0
    ensures var ps1 := PotholesAfter(ps, next, c, d1, t1, dist);
            var next1 := NextAfter(ps, next, c, dist);
            ResolvedPothole(ps1, next1, c, d2, t2, dist) == ResolvedPothole(ps, next, c, d1, t1, dist)
            && PotholesAfter(ps1, next1, c, d2, t2, dist) == ps1
            && NextAfter(ps1, next1, c, dist) == next1
  {
    var ps1 := PotholesAfter(ps, next, c, d1, t1, dist);
    if Resolve(ps, c, dist).Created? {
      var p := ResolvedPothole(ps, next, c, d1, t1, dist);
      assert ps1 == ps + [p];
      assert p.Position() == c;
      CreatedOnlyWhenNothingNear(ps, c, dist);
      var near := FindPotholesWithinRadius(ps1, c, Epsilon, dist);
      assert p in ps1;
      assert p in near;
      assert near[0] in near;
      assert near[0] in ps1 && dist(c, near[0].Position()) <= Epsilon;
      assert near[0] !in ps;
      assert near[0] == p;
    }
  }

  /** `findOrCreatePothole`: the nearest pothole within one metre, or a new one saved here. */
  method FindOrCreatePothole(db: Store, latitude: real, longitude: real, description: Option<string>, now: int)
    returns (p: Pothole)
    requires db.Valid()
    modifies db
    ensures db.Valid()
    ensures var c := Coord(latitude, longitude);
            p == ResolvedPothole(old(db.potholes), old(db.nextPotholeId), c, description, now, db.dist)
            && db.potholes == PotholesAfter(old(db.potholes), old(db.nextPotholeId), c, description, now, db.dist)
            && db.nextPotholeId == NextAfter(old(db.potholes), old(db.nextPotholeId), c, db.dist)
    ensures p.id.Some? && HasPothole(db.potholes, p.id.value)
    ensures db.reports == old(db.reports) && db.nextReportId == old(db.nextReportId)
  {
    var c := Coord(latitude, longitude);
    var near := FindPotholesWithinRadius(db.potholes, c, Epsilon, db.dist);
    if |near| > 0 {
      p := near[0];
      assert p in near;
      var k :| 0 <= k < |db.potholes| && db.potholes[k] == p;
    } else {
      p := db.InsertPothole(NewPothole(latitude, longitude, description, now));
      assert db.potholes[|db.potholes| - 1] == p;
    }
  }

  // ---------------------------------------------------------------- ingestion

  /** The address stored when the geocoder gives none: "위도: <lat>, 경도: <lon>". */
  function CoordinateAddress(latitude: real, longitude: real, show: real -> string): (a: string)
    ensures |a| == |show(latitude)| + |show(longitude)| + 10
    ensures a[..4] == "위도: " && a[4..4 + |show(latitude)|] == show(latitude)
    ensures a[|a| - |show(longitude)|..] == show(longitude)
  {
    "위도: " + show(latitude) + ", 경도: " + show(longitude)
  }

  /**
   * `getAddressFromCoordinates`: the region names of the geocoder's first result, or the
   * coordinate string on every failure path (`geocoded` is `None` then). `show` is Kotlin's
   * rendering of a `Double`.
   */
  function AddressOf(geocoded: Option<string>, latitude: real, longitude: real, show: real -> string)
    : (a: string)
    ensures geocoded.Some? ==> a == geocoded.value
    ensures geocoded.None? ==> a == CoordinateAddress(latitude, longitude, show)
  {
    match geocoded
    case Some(a) => a
    case None => CoordinateAddress(latitude, longitude, show)
  }

  /** The report built by `createReport`, before it gets its id. */
  function NewReport(latitude: real, longitude: real, address: string, imageUrls: seq<string>,
                     description: Option<string>, potholeId: int, now: int): (r: Report)
    ensures r.id.None? && r.Position() == Coord(latitude, longitude) && r.address == address
    ensures r.imageUrls == imageUrls && r.description == description && r.potholeId == potholeId
    ensures r.createdAt == now && r.updatedAt == now
  {
    Report(None, latitude, longitude, address, imageUrls, description, potholeId, now, now)
  }

  /**
   * `createReport`: links the report to the resolved pothole and saves it. The response is
   * the saved report's; `ReportResponse.from` cannot fail on it, since it has an id. A created
   * pothole is stamped `potholeNow` and the report `reportNow`: the two read the clock apart.
   */
  method CreateReport(db: Store, req: CreateReportRequest, geocoded: Option<string>,
                      show: real -> string, potholeNow: int, reportNow: int)
    returns (resp: ReportResponse, saved: Report)
    requires db.Valid()
    modifies db
    ensures db.Valid()
    ensures var c := Coord(req.latitude, req.longitude);
            var p := ResolvedPothole(old(db.potholes), old(db.nextPotholeId), c, req.description, potholeNow, db.dist);
            db.potholes == PotholesAfter(old(db.potholes), old(db.nextPotholeId), c, req.description, potholeNow, db.dist)
            && saved == NewReport(req.latitude, req.longitude, AddressOf(geocoded, req.latitude, req.longitude, show),
                                  req.imageUrls, req.description, p.id.value, reportNow).(id := Some(old(db.nextReportId)))
    ensures db.reports == old(db.reports) + [saved]
    ensures db.nextReportId == old(db.nextReportId) + 1
    ensures ReportResponseFrom(saved) == Success(resp)
  {
    var p := FindOrCreatePothole(db, req.latitude, req.longitude, req.description, potholeNow);
    var address := AddressOf(geocoded, req.latitude, req.longitude, show);
    saved := db.InsertReport(NewReport(req.latitude, req.longitude, address, req.imageUrls,
                                       req.description, p.id.value, reportNow));
    resp := ReportResponseFrom(saved).value;
  }

  /**
   * `createReportWithFiles`. The pothole is resolved first, then the images are stored; an
   * image error aborts the transaction, so both tables return to where they were (the identity
   * counter does not), while image files written before the failing one stay. The report holds
   * exactly the URLs the storage returned.
   */
  method CreateReportWithFiles(db: Store, store: FileStore, req: CreateReportMultipartRequest,
                               files: seq<Upload>, clock: nat -> nat, geocoded: Option<string>,
                               show: real -> string, potholeNow: int, reportNow: int)
    returns (r: Result<ReportResponse, Exception>)
    requires db.Valid()
    modifies db, store
    ensures db.Valid()
    ensures store.objects == ObjectsAfterStore(old(store.objects), files, clock)
    ensures StoreOutcome(files, clock).Failure? ==>
              r == Failure(StoreOutcome(files, clock).error)
              && db.potholes == old(db.potholes) && db.reports == old(db.reports)
              && db.nextReportId == old(db.nextReportId)
    ensures StoreOutcome(files, clock).Success? ==>
              var c := Coord(req.latitude, req.longitude);
              var p := ResolvedPothole(old(db.potholes), old(db.nextPotholeId), c, req.description, potholeNow, db.dist);
              var saved := NewReport(req.latitude, req.longitude,
                                     AddressOf(geocoded, req.latitude, req.longitude, show),
                                     StoreOutcome(files, clock).value, req.description, p.id.value, reportNow)
                           .(id := Some(old(db.nextReportId)));
              db.potholes == PotholesAfter(old(db.potholes), old(db.nextPotholeId), c, req.description, potholeNow, db.dist)
              && db.reports == old(db.reports) + [saved]
              && db.nextReportId == old(db.nextReportId) + 1
              && r == ReportResponseFrom(saved)
  {
    var ps, rs := db.potholes, db.reports;
    var p := FindOrCreatePothole(db, req.latitude, req.longitude, req.description, potholeNow);
    var urls := store.StoreImageFiles(files, clock);
    if urls.Failure? {
      SnapshotStaysOk(ps, rs, old(db.nextPotholeId), db.nextReportId, db.nextPotholeId, db.nextReportId);
      db.Rollback(ps, rs);
      return Failure(urls.error);
    }
    var address := AddressOf(geocoded, req.latitude, req.longitude, show);
    var saved := db.InsertReport(NewReport(req.latitude, req.longitude, address, urls.value,
                                           req.description, p.id.value, reportNow));
    r := ReportResponseFrom(saved);
  }

  // ---------------------------------------------------------------- update and delete

  /** The copy built by `updateReport`: each present request field replaces the stored one. */
  function MergeReport(r: Report, req: UpdateReportRequest, now: int): (m: Report)
    ensures m.id == r.id && m.Position() == r.Position() && m.createdAt == r.createdAt
    ensures m.potholeId == r.potholeId && m.updatedAt == now
    ensures m.address == if req.address.Some? then req.address.value else r.address
    ensures m.imageUrls == if req.imageUrls.Some? then req.imageUrls.value else r.imageUrls
    ensures m.description == if req.description.Some? then req.description else r.description
  {
    Report(r.id, r.latitude, r.longitude, req.address.GetOr(r.address), req.imageUrls.GetOr(r.imageUrls),
           if req.description.Some? then req.description else r.description,
           r.potholeId, r.createdAt, now)
  }

  /** A request with every field absent only moves `updatedAt`. */
  lemma EmptyUpdateOnlyTouchesUpdatedAt(r: Report, now: int)
    ensures MergeReport(r, UpdateReportRequest(None, None, None), now) == r.(updatedAt := now)
  {
  }

  /** Applying the same update twice is applying it once (at the later time). */
  lemma MergeReportIdempotent(r: Report, req: UpdateReportRequest, t1: int, t2: int)
    ensures MergeReport(MergeReport(r, req, t1), req, t2) == MergeReport(r, req, t2)
  {
  }

  /** An absent description in the request can never clear a stored one. */
  lemma MergeNeverClearsDescription(r: Report, req: UpdateReportRequest, now: int)
    ensures r.description.Some? ==> MergeReport(r, req, now).description.Some?
  {
  }

  /** `updateReport`: not-found leaves everything as it was; otherwise the row is replaced by the merge. */
  method UpdateReport(db: Store, id: int, req: UpdateReportRequest, now: int)
    returns (r: Result<ReportResponse, Exception>)
    requires db.Valid()
    modifies db
    ensures db.Valid()
    ensures db.potholes == old(db.potholes)
    ensures db.nextPotholeId == old(db.nextPotholeId) && db.nextReportId == old(db.nextReportId)
    ensures FindReport(old(db.reports), id).None? ==>
              r == Failure(ReportNotFound(Some(id))) && db.reports == old(db.reports)
    ensures FindReport(old(db.reports), id).Some? ==>
              var k := ReportIndex(old(db.reports), id).value;
              var m := MergeReport(old(db.reports)[k], req, now);
              db.reports == old(db.reports)[k := m] && r == ReportResponseFrom(m) && r.Success?
  {
    var k := ReportIndex(db.reports, id);
    if k.None? {
      return Failure(ReportNotFound(Some(id)));
    }
    var m := MergeReport(db.reports[k.value], req, now);
    assert HasPothole(db.potholes, db.reports[k.value].potholeId);
    db.UpdateReportAt(k.value, m);
    r := ReportResponseFrom(m);
  }

  /** `deleteReport`: not-found leaves everything as it was; otherwise exactly that row goes. */
  method DeleteReport(db: Store, id: int) returns (r: Result<(), Exception>)
    requires db.Valid()
    modifies db
    ensures db.Valid()
    ensures db.potholes == old(db.potholes)
    ensures db.nextPotholeId == old(db.nextPotholeId) && db.nextReportId == old(db.nextReportId)
    ensures r.Failure? <==> FindReport(old(db.reports), id).None?
    ensures r.Failure? ==> r.error == ReportNotFound(Some(id)) && db.reports == old(db.reports)
    ensures r.Success? ==> db.reports == RemoveAt(old(db.reports), ReportIndex(old(db.reports), id).value)
  {
    var k := ReportIndex(db.reports, id);
    if k.None? {
      return Failure(ReportNotFound(Some(id)));
    }
    db.DeleteReportAt(k.value);
    r := Success(());
  }

  /** Deleting by id removes exactly the row with that id and keeps every other row. */
  lemma {:induction false} DeleteRemovesExactlyThatId(rs: seq<Report>, next: int, id: int)
    requires ReportIdsOk(rs, next) && ReportIndex(rs, id).Some?
    ensures forall x :: x in RemoveAt(rs, ReportIndex(rs, id).value) <==> x in rs && x.id != Some(id)
  {
    var k := ReportIndex(rs, id).value;
    var after := RemoveAt(rs, k);
    forall x ensures x in after <==> x in rs && x.id != Some(id) {
      if x in after {
        var j :| 0 <= j < |after| && after[j] == x;
        if j < k {
          assert rs[j] == x && rs[j].id.value < rs[k].id.value;
        } else {
          assert rs[j + 1] == x && rs[k].id.value < rs[j + 1].id.value;
        }
      }
      if x in rs && x.id != Some(id) {
        var j :| 0 <= j < |rs| && rs[j] == x;
        assert j != k;
        if j < k {
          assert after[j] == x;
        } else {
          assert after[j - 1] == x;
        }
      }
    }
  }

  // ---------------------------------------------------------------- reads

  /** Every row of `rs` has an id. */
  predicate AllIdentified(rs: seq<Report>) {
    forall i :: 0 <= i < |rs| ==> rs[i].id.Some?
  }

  /** A query result drawn from identified rows is identified. */
  lemma SubsetIdentified(sub: seq<Report>, rs: seq<Report>)
    requires multiset(sub) <= multiset(rs) && AllIdentified(rs)
    ensures AllIdentified(sub)
  {
    forall i | 0 <= i < |sub| ensures sub[i].id.Some? {
      assert sub[i] in multiset(sub);
    }
  }

  /** The responses of a listing carry the listed reports' fields, position by position. */
  lemma ResponsesMirror(xs: seq<Report>)
    requires AllIdentified(xs)
    ensures ReportResponsesFrom(xs).Success?
    ensures var v := ReportResponsesFrom(xs).value;
            |v| == |xs|
            && forall i :: 0 <= i < |xs| ==>
                 Some(v[i].id) == xs[i].id && v[i].latitude == xs[i].latitude && v[i].longitude == xs[i].longitude
                 && v[i].address == xs[i].address && v[i].description == xs[i].description
                 && v[i].createdAt == xs[i].createdAt
  {
    var v := ReportResponsesFrom(xs).value;
    forall i | 0 <= i < |xs|
      ensures Some(v[i].id) == xs[i].id && v[i].latitude == xs[i].latitude && v[i].longitude == xs[i].longitude
              && v[i].address == xs[i].address && v[i].description == xs[i].description
              && v[i].createdAt == xs[i].createdAt
    {
      assert v[i] == ReportResponseFrom(xs[i]).value;
    }
  }

  /** Every row of a listing has a response carrying its id. */
  lemma ListsEveryRow(xs: seq<Report>)
    requires AllIdentified(xs)
    ensures ReportResponsesFrom(xs).Success?
    ensures var v := ReportResponsesFrom(xs).value;
            forall x :: x in xs ==> exists i :: 0 <= i < |v| && Some(v[i].id) == x.id
  {
    ResponsesMirror(xs);
    var v := ReportResponsesFrom(xs).value;
    forall x | x in xs ensures exists i :: 0 <= i < |v| && Some(v[i].id) == x.id {
      var i :| 0 <= i < |xs| && xs[i] == x;
      assert Some(v[i].id) == xs[i].id;
    }
  }

  /** `getAllReports`: every report, newest first, as responses. */
  function GetAllReports(rs: seq<Report>): (r: Result<seq<ReportResponse>, Exception>)
    ensures AllIdentified(rs) ==> r.Success? && |r.value| == |rs|
    ensures AllIdentified(rs) ==>
              forall i, j :: 0 <= i < j < |r.value| ==> r.value[i].createdAt >= r.value[j].createdAt
    ensures AllIdentified(rs) ==> forall x :: x in rs ==> exists i :: 0 <= i < |r.value| && Some(r.value[i].id) == x.id
  {
    var all := FindAllByOrderByCreatedAtDesc(rs);
    if AllIdentified(rs) then
      SubsetIdentified(all, rs);
      ResponsesMirror(all);
      SameMembers(all, rs);
      ListsEveryRow(all);
      ReportResponsesFrom(all)
    else
      ReportResponsesFrom(all)
  }

  /** `getReportById`. */
  function GetReportById(rs: seq<Report>, id: int): (r: Result<ReportResponse, Exception>)
    ensures r.Failure? <==> FindReport(rs, id).None?
    ensures r.Failure? ==> r.error == ReportNotFound(Some(id))
    ensures r.Success? ==> r.value.id == id && ReportResponseFrom(FindReport(rs, id).value) == r
  {
    match FindReport(rs, id)
    case None => Failure(ReportNotFound(Some(id)))
    case Some(x) => ReportResponseFrom(x)
  }

  /** `getReportsByLocationRange`. */
  function GetReportsByLocationRange(rs: seq<Report>, box: Box): (r: Result<seq<ReportResponse>, Exception>)
    ensures AllIdentified(rs) ==> r.Success?
    ensures AllIdentified(rs) ==>
              forall i :: 0 <= i < |r.value| ==> box.Holds(r.value[i].latitude, r.value[i].longitude)
    ensures AllIdentified(rs) ==>
              forall i, j :: 0 <= i < j < |r.value| ==> r.value[i].createdAt >= r.value[j].createdAt
    ensures AllIdentified(rs) ==>
              forall x :: x in rs && box.Holds(x.latitude, x.longitude) ==>
                exists i :: 0 <= i < |r.value| && Some(r.value[i].id) == x.id
  {
    var found := ReportQueries.FindByLocationRange(rs, box);
    if AllIdentified(rs) then
      SubsetIdentified(found, rs);
      ResponsesMirror(found);
      ListsEveryRow(found);
      MembersAt(found);
      ReportResponsesFrom(found)
    else
      ReportResponsesFrom(found)
  }

  /** `searchReportsByAddress`. */
  function SearchReportsByAddress(rs: seq<Report>, keyword: string): (r: Result<seq<ReportResponse>, Exception>)
    ensures AllIdentified(rs) ==> r.Success?
    ensures AllIdentified(rs) ==>
              forall i :: 0 <= i < |r.value| ==> Text.ContainsIgnoreCase(r.value[i].address, keyword)
    ensures AllIdentified(rs) ==>
              forall x :: x in rs && Text.ContainsIgnoreCase(x.address, keyword) ==>
                exists i :: 0 <= i < |r.value| && Some(r.value[i].id) == x.id
  {
    var found := FindByAddressContainingIgnoreCase(rs, keyword);
    if AllIdentified(rs) then
      SubsetIdentified(found, rs);
      ResponsesMirror(found);
      ListsEveryRow(found);
      MembersAt(found);
      ReportResponsesFrom(found)
    else
      ReportResponsesFrom(found)
  }

  /** `searchReportsByDescription`: reports without a description never appear. */
  function SearchReportsByDescription(rs: seq<Report>, keyword: string): (r: Result<seq<ReportResponse>, Exception>)
    ensures AllIdentified(rs) ==> r.Success?
    ensures AllIdentified(rs) ==>
              forall i :: 0 <= i < |r.value| ==>
                r.value[i].description.Some? && Text.ContainsIgnoreCase(r.value[i].description.value, keyword)
    ensures AllIdentified(rs) ==>
              forall x :: x in rs && x.description.Some? && Text.ContainsIgnoreCase(x.description.value, keyword) ==>
                exists i :: 0 <= i < |r.value| && Some(r.value[i].id) == x.id
  {
    var found := ReportQueries.FindByDescriptionContainingIgnoreCase(rs, keyword);
    if AllIdentified(rs) then
      SubsetIdentified(found, rs);
      ResponsesMirror(found);
      ListsEveryRow(found);
      MembersAt(found);
      ReportResponsesFrom(found)
    else
      ReportResponsesFrom(found)
  }

  /** Some row of the table has this id and this creation time. */
  predicate HasRow(rs: seq<Report>, id: int, createdAt: int) {
    exists k :: 0 <= k < |rs| && rs[k].id == Some(id) && rs[k].createdAt == createdAt
  }

  /** Each response to a listing drawn from the table carries the id and timestamp of a row of it. */
  lemma ResponsesFromRows(top: seq<Report>, rs: seq<Report>)
    requires AllIdentified(top) && multiset(top) <= multiset(rs)
    ensures ReportResponsesFrom(top).Success?
    ensures var v := ReportResponsesFrom(top).value;
            forall i :: 0 <= i < |v| ==> HasRow(rs, v[i].id, v[i].createdAt)
  {
    ResponsesMirror(top);
    var v := ReportResponsesFrom(top).value;
    forall i | 0 <= i < |v| ensures HasRow(rs, v[i].id, v[i].createdAt) {
      assert top[i] in multiset(top);
      assert top[i] in rs;
      var k :| 0 <= k < |rs| && rs[k] == top[i];
      assert Some(v[i].id) == top[i].id && v[i].createdAt == top[i].createdAt;
    }
  }

  /**
   * The responses to the top ten: as many as the query returns, newest first, each with the id
   * and timestamp of a row of the table, and none older than a row left out.
   */
  lemma RecentAreTheNewest(rs: seq<Report>)
    requires AllIdentified(rs)
    ensures var top := ReportQueries.FindTop10ByOrderByCreatedAtDesc(rs);
            var r := ReportResponsesFrom(top);
            r.Success? && |r.value| == (if |rs| < 10 then |rs| else 10)
            && (forall i, j :: 0 <= i < j < |r.value| ==> r.value[i].createdAt >= r.value[j].createdAt)
            && (forall i :: 0 <= i < |r.value| ==> HasRow(rs, r.value[i].id, r.value[i].createdAt))
            && (forall q, i :: q in multiset(rs) - multiset(top) && 0 <= i < |r.value| ==>
                  r.value[i].createdAt >= q.createdAt)
  {
    var top := ReportQueries.FindTop10ByOrderByCreatedAtDesc(rs);
    SubsetIdentified(top, rs);
    ResponsesMirror(top);
    ResponsesFromRows(top, rs);
    var v := ReportResponsesFrom(top).value;
    forall q, i | q in multiset(rs) - multiset(top) && 0 <= i < |v| ensures v[i].createdAt >= q.createdAt {
      assert v[i].createdAt == top[i].createdAt;
    }
  }

  /** `getRecentReports`: at most ten, newest first. */
  function GetRecentReports(rs: seq<Report>): (r: Result<seq<ReportResponse>, Exception>)
    ensures AllIdentified(rs) ==> r.Success? && |r.value| == if |rs| < 10 then |rs| else 10
    ensures AllIdentified(rs) ==>
              forall i, j :: 0 <= i < j < |r.value| ==> r.value[i].createdAt >= r.value[j].createdAt
    ensures AllIdentified(rs) ==>
              forall i :: 0 <= i < |r.value| ==> HasRow(rs, r.value[i].id, r.value[i].createdAt)
    ensures AllIdentified(rs) ==>
              forall q, i :: q in multiset(rs) - multiset(ReportQueries.FindTop10ByOrderByCreatedAtDesc(rs)) && 0 <= i < |r.value| ==>
                r.value[i].createdAt >= q.createdAt
  {
    if AllIdentified(rs) then
      RecentAreTheNewest(rs);
      ReportResponsesFrom(ReportQueries.FindTop10ByOrderByCreatedAtDesc(rs))
    else
      ReportResponsesFrom(ReportQueries.FindTop10ByOrderByCreatedAtDesc(rs))
  }

  /** `existsReportById`. */
  predicate ExistsReportById(rs: seq<Report>, id: int) {
    FindReport(rs, id).Some?
  }

  /** The existence check agrees with the lookup. */
  lemma ExistsAgreesWithLookup(rs: seq<Report>, id: int)
    ensures ExistsReportById(rs, id) <==> GetReportById(rs, id).Success?
    ensures ExistsReportById(rs, id) <==> exists k :: 0 <= k < |rs| && rs[k].id == Some(id)
  {
  }

  /** `getTotalReportCount`. */
  function GetTotalReportCount(rs: seq<Report>): nat {
    |rs|
  }

  /** In a well-formed table the count is the length of the full listing. */
  lemma CountIsLengthOfAll(rs: seq<Report>, next: int)
    requires ReportIdsOk(rs, next)
    ensures GetAllReports(rs).Success? && GetTotalReportCount(rs) == |GetAllReports(rs).value|
  {
  }
}
