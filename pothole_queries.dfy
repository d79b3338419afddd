/**
 * What the pothole repository's queries return from the table, in table order (`ORDER BY`
 * clauses become a sort; the order among equal keys is not promised by the database, and the
 * model picks one). Both the JPQL/derived queries and the QueryDSL ones are here.
 */
module PotholeQueries {
  import opened Wrappers
  import opened Text
  import opened Seqs
  import opened Entities

  /** The arguments of a location-range query. */
  datatype Box = Box(minLatitude: real, maxLatitude: real, minLongitude: real, maxLongitude: real)
  {
    /** `latitude BETWEEN min AND max AND longitude BETWEEN min AND max`: inclusive. */
    predicate Holds(latitude: real, longitude: real) {
      minLatitude <= latitude <= maxLatitude && minLongitude <= longitude <= maxLongitude
    }

    predicate Inverted() {
      minLatitude > maxLatitude || minLongitude > maxLongitude
    }
  }

  /** `createdAt` does not increase along `r`. */
  predicate NewestFirst(r: seq<Pothole>) {
    forall i, j :: 0 <= i < j < |r| ==> r[i].createdAt >= r[j].createdAt
  }

  lemma SortedByNewestKey(r: seq<Pothole>)
    requires SortedBy(r, PotholeNewestKey)
    ensures NewestFirst(r)
  {
    forall i, j | 0 <= i < j < |r| ensures r[i].createdAt >= r[j].createdAt {
      assert PotholeNewestKey(r[i]) <= PotholeNewestKey(r[j]);
    }
  }

  /** The JPQL `findByLocationRange`: the potholes inside the box, newest first. */
  function FindByLocationRange(ps: seq<Pothole>, box: Box): (r: seq<Pothole>)
    ensures forall p :: p in r <==> p in ps && box.Holds(p.latitude, p.longitude)
    ensures multiset(r) <= multiset(ps)
    ensures forall p :: multiset(r)[p] == if box.Holds(p.latitude, p.longitude) then multiset(ps)[p] else 0
    ensures NewestFirst(r)
  {
    var inBox := Filter(ps, (p: Pothole) => box.Holds(p.latitude, p.longitude));
    var r := SortByKey(inBox, PotholeNewestKey);
    SameMembers(r, inBox);
    SortedByNewestKey(r);
    r
  }

  /** The derived `findByDescriptionContainingIgnoreCase`, in table order. */
  function FindByDescriptionContainingIgnoreCase(ps: seq<Pothole>, keyword: string): (r: seq<Pothole>)
    ensures forall p :: p in r <==> p in ps && ContainsIgnoreCase(p.description, keyword)
    ensures multiset(r) <= multiset(ps)
    ensures forall p :: multiset(r)[p] == if ContainsIgnoreCase(p.description, keyword) then multiset(ps)[p] else 0
  {
    Filter(ps, (p: Pothole) => ContainsIgnoreCase(p.description, keyword))
  }

  /** The derived `findByImageUrlIsNotNull`, in table order. */
  function FindByImageUrlIsNotNull(ps: seq<Pothole>): (r: seq<Pothole>)
    ensures forall p :: p in r <==> p in ps && p.imageUrl.Some?
    ensures multiset(r) <= multiset(ps)
    ensures forall i :: 0 <= i < |r| ==> r[i].imageUrl.Some?
    ensures forall p :: multiset(r)[p] == if p.imageUrl.Some? then multiset(ps)[p] else 0
  {
    Filter(ps, (p: Pothole) => p.imageUrl.Some?)
  }

  /** The derived `findTop10ByOrderByCreatedAtDesc`. */
  function FindTop10ByOrderByCreatedAtDesc(ps: seq<Pothole>): (r: seq<Pothole>)
    ensures |r| == if |ps| < 10 then |ps| else 10
    ensures NewestFirst(r)
    ensures multiset(r) <= multiset(ps)
    ensures forall q, i :: q in multiset(ps) - multiset(r) && 0 <= i < |r| ==> r[i].createdAt >= q.createdAt
  {
    var r := TopByKey(ps, PotholeNewestKey, 10);
    SortedByNewestKey(r);
    NoOmittedNewer(ps, r);
    r
  }

  lemma NoOmittedNewer(ps: seq<Pothole>, r: seq<Pothole>)
    requires forall x, i :: x in multiset(ps) - multiset(r) && 0 <= i < |r| ==>
               PotholeNewestKey(r[i]) <= PotholeNewestKey(x)
    ensures forall q, i :: q in multiset(ps) - multiset(r) && 0 <= i < |r| ==> r[i].createdAt >= q.createdAt
  {
    forall q, i | q in multiset(ps) - multiset(r) && 0 <= i < |r| ensures r[i].createdAt >= q.createdAt {
      assert PotholeNewestKey(r[i]) <= PotholeNewestKey(q);
    }
  }

  /** The distance from `center` that the radius query both filters and orders by. */
  function DistanceFrom(center: Coord, dist: Distance): Pothole -> real {
    (p: Pothole) => dist(center, p.Position())
  }

  /** `findPotholesWithinRadius`: the potholes at most `radius` away, nearest first. */
  function FindPotholesWithinRadius(ps: seq<Pothole>, center: Coord, radius: real, dist: Distance)
    : (r: seq<Pothole>)
    ensures forall p :: p in r <==> p in ps && dist(center, p.Position()) <= radius
    ensures multiset(r) <= multiset(ps)
    ensures forall p :: multiset(r)[p] == if dist(center, p.Position()) <= radius then multiset(ps)[p] else 0
    ensures forall i, j :: 0 <= i < j < |r| ==> dist(center, r[i].Position()) <= dist(center, r[j].Position())
  {
    var near := Filter(ps, (p: Pothole) => DistanceFrom(center, dist)(p) <= radius);
    var r := SortByKey(near, DistanceFrom(center, dist));
    SameMembers(r, near);
    assert SortedBy(r, DistanceFrom(center, dist));
    r
  }

  /** The QueryDSL `findByLocationRange`: the same box, without an order. */
  function DslFindByLocationRange(ps: seq<Pothole>, box: Box): (r: seq<Pothole>)
    ensures multiset(r) <= multiset(ps)
    ensures forall p :: multiset(r)[p] == if box.Holds(p.latitude, p.longitude) then multiset(ps)[p] else 0
  {
    Filter(ps, (p: Pothole) => box.Holds(p.latitude, p.longitude))
  }

  /** The QueryDSL `findByDescriptionContaining`: case-insensitive, newest first. */
  function DslFindByDescriptionContaining(ps: seq<Pothole>, keyword: string): (r: seq<Pothole>)
    ensures multiset(r) <= multiset(ps)
    ensures forall p :: multiset(r)[p] == if ContainsIgnoreCase(p.description, keyword) then multiset(ps)[p] else 0
    ensures NewestFirst(r)
  {
    var r := SortByKey(Filter(ps, (p: Pothole) => ContainsIgnoreCase(p.description, keyword)), PotholeNewestKey);
    SortedByNewestKey(r);
    r
  }

  /**
   * The QueryDSL `countByLocationRange`. `select count(*)` always yields one row, so the
   * `?: 0L` fallback for a missing row is never taken; the count is the number of matches.
   */
  function DslCountByLocationRange(ps: seq<Pothole>, box: Box): (n: nat)
    ensures n <= |ps|
  {
    |Filter(ps, (p: Pothole) => box.Holds(p.latitude, p.longitude))|
  }

  /** Both location-range queries return the same potholes, each as often. */
  lemma DslAndJpqlFindSameRows(ps: seq<Pothole>, box: Box)
    ensures multiset(DslFindByLocationRange(ps, box)) == multiset(FindByLocationRange(ps, box))
  {
    assert forall p :: multiset(DslFindByLocationRange(ps, box))[p] == multiset(FindByLocationRange(ps, box))[p];
  }

  /** The count agrees with the length of either location-range result. */
  lemma CountMatchesFind(ps: seq<Pothole>, box: Box)
    ensures DslCountByLocationRange(ps, box) == |FindByLocationRange(ps, box)|
    ensures DslCountByLocationRange(ps, box) == |DslFindByLocationRange(ps, box)|
  {
    DslAndJpqlFindSameRows(ps, box);
    assert |multiset(DslFindByLocationRange(ps, box))| == |multiset(FindByLocationRange(ps, box))|;
  }

  /** An inverted box matches nothing: both finds are empty and the count is zero. */
  lemma InvertedBoxIsEmpty(ps: seq<Pothole>, box: Box)
    requires box.Inverted()
    ensures FindByLocationRange(ps, box) == []
    ensures DslFindByLocationRange(ps, box) == []
    ensures DslCountByLocationRange(ps, box) == 0
  {
    var r := FindByLocationRange(ps, box);
    if |r| > 0 {
      assert r[0] in r;
    }
    DslAndJpqlFindSameRows(ps, box);
    assert |multiset(DslFindByLocationRange(ps, box))| == 0;
    CountMatchesFind(ps, box);
  }

  /**
   * Every result is drawn from the table without repetition: from a table with no duplicate
   * rows (ids are unique), every query answers with no duplicate.
   */
  lemma ResultsAreDistinctSubsets(ps: seq<Pothole>, box: Box, keyword: string, center: Coord,
                                  radius: real, dist: Distance)
    requires Distinct(ps)
    ensures Distinct(FindByLocationRange(ps, box))
    ensures Distinct(DslFindByLocationRange(ps, box))
    ensures Distinct(FindByDescriptionContainingIgnoreCase(ps, keyword))
    ensures Distinct(DslFindByDescriptionContaining(ps, keyword))
    ensures Distinct(FindByImageUrlIsNotNull(ps))
    ensures Distinct(FindTop10ByOrderByCreatedAtDesc(ps))
    ensures Distinct(FindPotholesWithinRadius(ps, center, radius, dist))
  {
    SubMultisetDistinct(FindByLocationRange(ps, box), ps);
    SubMultisetDistinct(DslFindByLocationRange(ps, box), ps);
    SubMultisetDistinct(FindByDescriptionContainingIgnoreCase(ps, keyword), ps);
    SubMultisetDistinct(DslFindByDescriptionContaining(ps, keyword), ps);
    SubMultisetDistinct(FindByImageUrlIsNotNull(ps), ps);
    SubMultisetDistinct(FindTop10ByOrderByCreatedAtDesc(ps), ps);
    SubMultisetDistinct(FindPotholesWithinRadius(ps, center, radius, dist), ps);
  }
}
