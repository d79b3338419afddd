/**
 * `PotholeDataInitializer`: when the application is ready and the pothole table is empty, the
 * potholes listed in the bundled JSON resource are saved, one row per entry and in the order of
 * the file. Every failure is caught and logged, so start-up never fails because of it.
 */
module DataInitializer {
  import opened Wrappers
  import opened Entities
  import opened Persistence

  /** One entry of the seed file. */
  datatype PotholeInitData = PotholeInitData(
    latitude: real,
    longitude: real,
    description: string,
    imageUrl: Option<string>)

  /** What reading the class-path resource gives: nothing, unparsable JSON, or the entries. */
  datatype SeedResource = Missing | Unreadable | Parsed(entries: seq<PotholeInitData>)

  /** Which way the initializer left: the log line it ends with. */
  datatype InitOutcome = AlreadySeeded | ResourceMissing | LoadFailed | Seeded(count: nat)

  /** The entity built for one entry: no id yet, no address, both timestamps `now`. */
  function SeedRow(e: PotholeInitData, now: int): (p: Pothole)
    ensures p.id.None? && p.address.None? && p.createdAt == now && p.updatedAt == now
    ensures p.Position() == Coord(e.latitude, e.longitude)
    ensures p.description == e.description && p.imageUrl == e.imageUrl
  {
    Pothole(None, e.latitude, e.longitude, e.description, e.imageUrl, None, now, now)
  }

  /**
   * The rows `saveAll` writes when the identity column stands at `next`; the i-th entry is
   * built at the instant `stamp(i)`, since each entry reads the clock anew.
   */
  function SeedRows(es: seq<PotholeInitData>, next: int, stamp: nat -> int): (ps: seq<Pothole>)
    ensures |ps| == |es|
    ensures forall i :: 0 <= i < |es| ==> ps[i] == SeedRow(es[i], stamp(i)).(id := Some(next + i))
  {
    if |es| == 0 then []
    else SeedRows(es[..|es| - 1], next, stamp) + [SeedRow(es[|es| - 1], stamp(|es| - 1)).(id := Some(next + |es| - 1))]
  }

  /** The seeded rows get consecutive ids from `next` on, so the table is well formed. */
  lemma SeedRowsIdsOk(es: seq<PotholeInitData>, next: int, stamp: nat -> int)
    requires 1 <= next
    ensures PotholeIdsOk(SeedRows(es, next, stamp), next + |es|)
  {
  }

  /**
   * The outcome, the pothole table and the identity counter after `initializePotholeData`,
   * given the table and the counter before it.
   */
  function AfterInit(ps: seq<Pothole>, next: int, resource: SeedResource, stamp: nat -> int)
    : (r: (InitOutcome, seq<Pothole>, int))
  {
    if |ps| > 0 then (AlreadySeeded, ps, next)
    else match resource
      case Missing => (ResourceMissing, ps, next)
      case Unreadable => (LoadFailed, ps, next)
      case Parsed(es) => (Seeded(|es|), SeedRows(es, next, stamp), next + |es|)
  }

  /**
   * The table changes exactly when it was empty and the file held entries; then it holds one
   * row per entry, in file order, with that entry's fields and consecutive ids, and the outcome
   * reports how many were saved.
   */
  lemma AfterInitMeaning(ps: seq<Pothole>, next: int, resource: SeedResource, stamp: nat -> int)
    ensures var (outcome, ps', next') := AfterInit(ps, next, resource, stamp);
            (ps' != ps <==> |ps| == 0 && resource.Parsed? && |resource.entries| > 0)
            && (outcome.Seeded? <==> |ps| == 0 && resource.Parsed?)
            && (outcome.Seeded? ==> |ps'| == outcome.count && next' == next + outcome.count)
            && (!outcome.Seeded? ==> ps' == ps && next' == next)
    ensures var (outcome, ps', next') := AfterInit(ps, next, resource, stamp);
            outcome.Seeded? ==>
              forall i :: 0 <= i < |ps'| ==>
                ps'[i].id == Some(next + i) && ps'[i].address.None?
                && ps'[i].Position() == Coord(resource.entries[i].latitude, resource.entries[i].longitude)
                && ps'[i].description == resource.entries[i].description
                && ps'[i].imageUrl == resource.entries[i].imageUrl
  {
    if |ps| == 0 && resource.Parsed? && |resource.entries| > 0 {
      assert |SeedRows(resource.entries, next, stamp)| > 0;
    }
  }

  /** Once the table holds a row, running the initializer again (on any file) changes nothing. */
  lemma InitIdempotent(ps: seq<Pothole>, next: int, resource: SeedResource, stamp: nat -> int,
                       resource2: SeedResource, stamp2: nat -> int)
    requires |AfterInit(ps, next, resource, stamp).1| > 0
    ensures var (_, ps', next') := AfterInit(ps, next, resource, stamp);
            AfterInit(ps', next', resource2, stamp2) == (AlreadySeeded, ps', next')
  {
  }

  /** `initializePotholeData`, with the `saveAll` of the parsed entries inserting row by row. */
  method Initialize(db: Store, resource: SeedResource, stamp: nat -> int) returns (outcome: InitOutcome)
    requires db.Valid()
    modifies db
    ensures db.Valid()
    ensures (outcome, db.potholes, db.nextPotholeId)
            == AfterInit(old(db.potholes), old(db.nextPotholeId), resource, stamp)
    ensures db.reports == old(db.reports) && db.nextReportId == old(db.nextReportId)
  {
    if |db.potholes| > 0 {
      return AlreadySeeded;
    }
    match resource {
      case Missing =>
        return ResourceMissing;
      case Unreadable =>
        return LoadFailed;
      case Parsed(es) =>
        var next0 := db.nextPotholeId;
        for i := 0 to |es|
          invariant db.Valid()
          invariant db.potholes == SeedRows(es[..i], next0, stamp)
          invariant db.nextPotholeId == next0 + i
          invariant db.reports == old(db.reports) && db.nextReportId == old(db.nextReportId)
        {
          var _ := db.InsertPothole(SeedRow(es[i], stamp(i)));
          assert es[..i + 1][..i] == es[..i];
        }
        assert es[..|es|] == es;
        return Seeded(|es|);
    }
  }
}
