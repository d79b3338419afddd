/**
 * The database behind the two JPA repositories: the pothole table, the report table and the
 * identity counters that hand out ids. Rows are kept in id order. A report names its pothole
 * by id (`report.pothole_id`), and the foreign key keeps that pothole present.
 */
module Persistence {
  import opened Wrappers
  import opened Seqs
  import opened Entities

  /** Every row has an id of at least 1 and below `next`; ids increase along the table. */
  predicate PotholeIdsOk(ps: seq<Pothole>, next: int) {
    (forall i :: 0 <= i < |ps| ==> ps[i].id.Some? && 1 <= ps[i].id.value < next)
    && (forall i, j :: 0 <= i < j < |ps| ==> ps[i].id.value < ps[j].id.value)
  }

  predicate ReportIdsOk(rs: seq<Report>, next: int) {
    (forall i :: 0 <= i < |rs| ==> rs[i].id.Some? && 1 <= rs[i].id.value < next)
    && (forall i, j :: 0 <= i < j < |rs| ==> rs[i].id.value < rs[j].id.value)
  }

  /** Some pothole of the table has id `id`. */
  predicate HasPothole(ps: seq<Pothole>, id: int) {
    exists k :: 0 <= k < |ps| && ps[k].id == Some(id)
  }

  /** The foreign key `report.pothole_id`: every report's pothole is in the table. */
  predicate Linked(rs: seq<Report>, ps: seq<Pothole>) {
    forall i :: 0 <= i < |rs| ==> HasPothole(ps, rs[i].potholeId)
  }

  /** Some report points at the pothole with id `id`. */
  predicate Referenced(rs: seq<Report>, id: int) {
    exists i :: 0 <= i < |rs| && rs[i].potholeId == id
  }

  /** Where the pothole with id `id` is in the table (`findById`). */
  function PotholeIndex(ps: seq<Pothole>, id: int): (r: Option<nat>)
    ensures r.Some? ==> r.value < |ps| && ps[r.value].id == Some(id)
    ensures r.None? ==> forall k :: 0 <= k < |ps| ==> ps[k].id != Some(id)
  {
    if |ps| == 0 then None
    else if ps[|ps| - 1].id == Some(id) then Some(|ps| - 1)
    else PotholeIndex(ps[..|ps| - 1], id)
  }

  function ReportIndex(rs: seq<Report>, id: int): (r: Option<nat>)
    ensures r.Some? ==> r.value < |rs| && rs[r.value].id == Some(id)
    ensures r.None? ==> forall k :: 0 <= k < |rs| ==> rs[k].id != Some(id)
  {
    if |rs| == 0 then None
    else if rs[|rs| - 1].id == Some(id) then Some(|rs| - 1)
    else ReportIndex(rs[..|rs| - 1], id)
  }

  /** `findByIdOrNull`. */
  function FindPothole(ps: seq<Pothole>, id: int): (r: Option<Pothole>)
    ensures r.Some? <==> HasPothole(ps, id)
    ensures r.Some? ==> r.value in ps && r.value.id == Some(id)
  {
    match PotholeIndex(ps, id)
    case Some(k) => Some(ps[k])
    case None => None
  }

  function FindReport(rs: seq<Report>, id: int): (r: Option<Report>)
    ensures r.Some? <==> exists k :: 0 <= k < |rs| && rs[k].id == Some(id)
    ensures r.Some? ==> r.value in rs && r.value.id == Some(id)
  {
    match ReportIndex(rs, id)
    case Some(k) => Some(rs[k])
    case None => None
  }

  /** With ascending ids, a row is the only one carrying its id. */
  lemma PotholeIdsUnique(ps: seq<Pothole>, next: int, k: nat)
    requires PotholeIdsOk(ps, next) && k < |ps|
    ensures PotholeIndex(ps, ps[k].id.value) == Some(k)
  {
  }

  lemma ReportIdsUnique(rs: seq<Report>, next: int, k: nat)
    requires ReportIdsOk(rs, next) && k < |rs|
    ensures ReportIndex(rs, rs[k].id.value) == Some(k)
  {
  }

  /** Ascending ids make the table free of duplicate rows. */
  lemma PotholeRowsDistinct(ps: seq<Pothole>, next: int)
    requires PotholeIdsOk(ps, next)
    ensures Distinct(ps)
  {
    forall i, j | 0 <= i < j < |ps| ensures ps[i] != ps[j] {
      assert ps[i].id.value < ps[j].id.value;
    }
  }

  lemma ReportRowsDistinct(rs: seq<Report>, next: int)
    requires ReportIdsOk(rs, next)
    ensures Distinct(rs)
  {
    forall i, j | 0 <= i < j < |rs| ensures rs[i] != rs[j] {
      assert rs[i].id.value < rs[j].id.value;
    }
  }

  /** Removing an unreferenced pothole keeps every report's pothole present. */
  lemma RemoveUnreferencedKeepsLinks(rs: seq<Report>, ps: seq<Pothole>, k: nat)
    requires Linked(rs, ps) && k < |ps| && ps[k].id.Some?
    requires !Referenced(rs, ps[k].id.value)
    ensures Linked(rs, RemoveAt(ps, k))
  {
    var qs := RemoveAt(ps, k);
    forall i | 0 <= i < |rs| ensures HasPothole(qs, rs[i].potholeId) {
      var j :| 0 <= j < |ps| && ps[j].id == Some(rs[i].potholeId);
      if j < k {
        assert qs[j] == ps[j];
      } else {
        assert j != k;
        assert qs[j - 1] == ps[j];
      }
    }
  }

  /** The tables and identity counters of the database. */
  class Store {
    var potholes: seq<Pothole>
    var reports: seq<Report>
    var nextPotholeId: int
    var nextReportId: int
    /** The distance the database's radius query computes. */
    const dist: Distance

    predicate Valid()
      reads this
    {
      1 <= nextPotholeId && 1 <= nextReportId
      && PotholeIdsOk(potholes, nextPotholeId) && ReportIdsOk(reports, nextReportId)
      && Linked(reports, potholes)
    }

    /** An empty database whose identity columns start at 1. */
    constructor(dist: Distance)
      ensures Valid()
      ensures potholes == [] && reports == []
      ensures nextPotholeId == 1 && nextReportId == 1
      ensures this.dist == dist
    {
      potholes := [];
      reports := [];
      nextPotholeId := 1;
      nextReportId := 1;
      this.dist := dist;
    }

    /** `save` of a new pothole: the identity column assigns the next id. */
    method InsertPothole(p: Pothole) returns (saved: Pothole)
      requires Valid() && p.id.None?
      modifies this
      ensures Valid()
      ensures saved == p.(id := Some(old(nextPotholeId)))
      ensures potholes == old(potholes) + [saved]
      ensures nextPotholeId == old(nextPotholeId) + 1
      ensures reports == old(reports) && nextReportId == old(nextReportId)
    {
      saved := p.(id := Some(nextPotholeId));
      potholes := potholes + [saved];
      nextPotholeId := nextPotholeId + 1;
      forall i | 0 <= i < |reports| ensures HasPothole(potholes, reports[i].potholeId) {
        assert HasPothole(old(potholes), reports[i].potholeId);
        var k :| 0 <= k < |old(potholes)| && old(potholes)[k].id == Some(reports[i].potholeId);
        assert potholes[k] == old(potholes)[k];
      }
    }

    /** `save` of a pothole that already has an id: the row is overwritten in place. */
    method UpdatePotholeAt(k: nat, p: Pothole)
      requires Valid() && k < |potholes| && p.id == potholes[k].id
      modifies this
      ensures Valid()
      ensures potholes == old(potholes)[k := p]
      ensures reports == old(reports)
      ensures nextPotholeId == old(nextPotholeId) && nextReportId == old(nextReportId)
    {
      potholes := potholes[k := p];
      forall i | 0 <= i < |reports| ensures HasPothole(potholes, reports[i].potholeId) {
        var j :| 0 <= j < |old(potholes)| && old(potholes)[j].id == Some(reports[i].potholeId);
        assert potholes[j].id == old(potholes)[j].id;
      }
    }

    /** `deleteById` of a pothole no report points at. */
    method DeletePotholeAt(k: nat)
      requires Valid() && k < |potholes| && !Referenced(reports, potholes[k].id.value)
      modifies this
      ensures Valid()
      ensures potholes == RemoveAt(old(potholes), k)
      ensures reports == old(reports)
      ensures nextPotholeId == old(nextPotholeId) && nextReportId == old(nextReportId)
    {
      RemoveUnreferencedKeepsLinks(reports, potholes, k);
      potholes := RemoveAt(potholes, k);
    }

    /** `save` of a new report, whose pothole must exist. */
    method InsertReport(r: Report) returns (saved: Report)
      requires Valid() && r.id.None? && HasPothole(potholes, r.potholeId)
      modifies this
      ensures Valid()
      ensures saved == r.(id := Some(old(nextReportId)))
      ensures reports == old(reports) + [saved]
      ensures nextReportId == old(nextReportId) + 1
      ensures potholes == old(potholes) && nextPotholeId == old(nextPotholeId)
    {
      saved := r.(id := Some(nextReportId));
      reports := reports + [saved];
      nextReportId := nextReportId + 1;
    }

    /** `save` of a report that already has an id. */
    method UpdateReportAt(k: nat, r: Report)
      requires Valid() && k < |reports| && r.id == reports[k].id && HasPothole(potholes, r.potholeId)
      modifies this
      ensures Valid()
      ensures reports == old(reports)[k := r]
      ensures potholes == old(potholes)
      ensures nextPotholeId == old(nextPotholeId) && nextReportId == old(nextReportId)
    {
      reports := reports[k := r];
    }

    /** `deleteById` of a report. */
    method DeleteReportAt(k: nat)
      requires Valid() && k < |reports|
      modifies this
      ensures Valid()
      ensures reports == RemoveAt(old(reports), k)
      ensures potholes == old(potholes)
      ensures nextPotholeId == old(nextPotholeId) && nextReportId == old(nextReportId)
    {
      reports := RemoveAt(reports, k);
    }

    /**
     * The rollback of a transaction: both tables return to a snapshot taken before it. The
     * identity counters are not transactional and keep the values the transaction reached.
     */
    method Rollback(ps: seq<Pothole>, rs: seq<Report>)
      requires 1 <= nextPotholeId && 1 <= nextReportId
      requires PotholeIdsOk(ps, nextPotholeId) && ReportIdsOk(rs, nextReportId) && Linked(rs, ps)
      modifies this
      ensures Valid()
      ensures potholes == ps && reports == rs
      ensures nextPotholeId == old(nextPotholeId) && nextReportId == old(nextReportId)
    {
      potholes := ps;
      reports := rs;
    }
  }

  /** A snapshot stays well formed once the counters have moved on. */
  lemma SnapshotStaysOk(ps: seq<Pothole>, rs: seq<Report>, np: int, nr: int, np': int, nr': int)
    requires PotholeIdsOk(ps, np) && ReportIdsOk(rs, nr) && np <= np' && nr <= nr'
    ensures PotholeIdsOk(ps, np') && ReportIdsOk(rs, nr')
  {
  }
}
