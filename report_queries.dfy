/** What the report repository's queries return from the report table. */
module ReportQueries {
  import opened Wrappers
  import opened Text
  import opened Seqs
  import opened Entities
  import PotholeQueries

  /** `createdAt` does not increase along `r`. */
  predicate NewestFirst(r: seq<Report>) {
    forall i, j :: 0 <= i < j < |r| ==> r[i].createdAt >= r[j].createdAt
  }

  lemma SortedByNewestKey(r: seq<Report>)
    requires SortedBy(r, ReportNewestKey)
    ensures NewestFirst(r)
  {
    forall i, j | 0 <= i < j < |r| ensures r[i].createdAt >= r[j].createdAt {
      assert ReportNewestKey(r[i]) <= ReportNewestKey(r[j]);
    }
  }

  /** `findByLocationRange`: the reports inside the inclusive box, newest first. */
  function FindByLocationRange(rs: seq<Report>, box: PotholeQueries.Box): (r: seq<Report>)
    ensures forall x :: x in r <==> x in rs && box.Holds(x.latitude, x.longitude)
    ensures multiset(r) <= multiset(rs)
    ensures NewestFirst(r)
  {
    var inBox := Filter(rs, (x: Report) => box.Holds(x.latitude, x.longitude));
    var r := SortByKey(inBox, ReportNewestKey);
    SameMembers(r, inBox);
    SortedByNewestKey(r);
    r
  }

  /** `findByAddressContainingIgnoreCase`, in table order. */
  function FindByAddressContainingIgnoreCase(rs: seq<Report>, keyword: string): (r: seq<Report>)
    ensures forall x :: x in r <==> x in rs && ContainsIgnoreCase(x.address, keyword)
    ensures multiset(r) <= multiset(rs)
  {
    Filter(rs, (x: Report) => ContainsIgnoreCase(x.address, keyword))
  }

  /** `findByDescriptionContainingIgnoreCase`: a null description (SQL `NULL LIKE …`) never matches. */
  function FindByDescriptionContainingIgnoreCase(rs: seq<Report>, keyword: string): (r: seq<Report>)
    ensures forall x :: x in r <==> x in rs && x.description.Some? && ContainsIgnoreCase(x.description.value, keyword)
    ensures forall i :: 0 <= i < |r| ==> r[i].description.Some?
    ensures multiset(r) <= multiset(rs)
  {
    Filter(rs, (x: Report) => x.description.Some? && ContainsIgnoreCase(x.description.value, keyword))
  }

  /** `findAllByOrderByCreatedAtDesc`: every report, newest first. */
  function FindAllByOrderByCreatedAtDesc(rs: seq<Report>): (r: seq<Report>)
    ensures multiset(r) == multiset(rs)
    ensures NewestFirst(r)
  {
    var r := SortByKey(rs, ReportNewestKey);
    SortedByNewestKey(r);
    r
  }

  /** `findTop10ByOrderByCreatedAtDesc`. */
  function FindTop10ByOrderByCreatedAtDesc(rs: seq<Report>): (r: seq<Report>)
    ensures |r| == if |rs| < 10 then |rs| else 10
    ensures NewestFirst(r)
    ensures multiset(r) <= multiset(rs)
    ensures forall q, i :: q in multiset(rs) - multiset(r) && 0 <= i < |r| ==> r[i].createdAt >= q.createdAt
  {
    var r := TopByKey(rs, ReportNewestKey, 10);
    SortedByNewestKey(r);
    forall q, i | q in multiset(rs) - multiset(r) && 0 <= i < |r| ensures r[i].createdAt >= q.createdAt {
      assert ReportNewestKey(r[i]) <= ReportNewestKey(q);
    }
    r
  }

  /** With unique rows, the full listing holds every report exactly once. */
  lemma AllListsEachReportOnce(rs: seq<Report>, x: Report)
    requires Distinct(rs)
    ensures x in rs ==> multiset(FindAllByOrderByCreatedAtDesc(rs))[x] == 1
    ensures x !in rs ==> x !in FindAllByOrderByCreatedAtDesc(rs)
  {
    DistinctCounts(rs, x);
    if x !in rs {
      assert multiset(FindAllByOrderByCreatedAtDesc(rs))[x] == 0;
    }
  }

  /** Removing one report from a newest-first listing leaves a newest-first listing of the rest. */
  lemma RemoveKeepsNewestFirst(b: seq<Report>, k: nat)
    requires NewestFirst(b) && k < |b|
    ensures NewestFirst(RemoveAt(b, k))
    ensures multiset(RemoveAt(b, k)) == multiset(b) - multiset{b[k]}
  {
    var rest := RemoveAt(b, k);
    assert b == b[..k] + [b[k]] + b[k + 1..];
    assert rest == b[..k] + b[k + 1..];
    forall i, j | 0 <= i < j < |rest| ensures rest[i].createdAt >= rest[j].createdAt {
      var i' := if i < k then i else i + 1;
      var j' := if j < k then j else j + 1;
      assert rest[i] == b[i'] && rest[j] == b[j'];
    }
  }

  /** Dropping the head of a listing drops one copy of it. */
  lemma TailMultiset(a: seq<Report>)
    requires |a| > 0
    ensures multiset(a[1..]) == multiset(a) - multiset{a[0]}
  {
    assert a == [a[0]] + a[1..];
  }

  /**
   * The step of `SameTimestamps`: `a` starts with the report found at index `k` of `b`, and
   * the rest of `a` agrees with `b` without it.
   */
  lemma SameTimestampsStep(a: seq<Report>, b: seq<Report>, k: nat)
    requires NewestFirst(b) && k < |b| && |a| == |b|
    requires a[0].createdAt == b[k].createdAt && b[k].createdAt >= b[0].createdAt
    requires forall i :: 0 <= i < |b| - 1 ==> a[1..][i].createdAt == RemoveAt(b, k)[i].createdAt
    ensures forall i :: 0 <= i < |a| ==> a[i].createdAt == b[i].createdAt
  {
    var rest := RemoveAt(b, k);
    forall i | 0 <= i < |b| - 1 ensures a[i + 1].createdAt == rest[i].createdAt {
      assert a[1..][i] == a[i + 1];
    }
    forall i | 0 <= i < |a| ensures a[i].createdAt == b[i].createdAt {
      if i == 0 {
        assert b[0].createdAt >= b[k].createdAt;
      } else if i > k {
        assert a[i].createdAt == rest[i - 1].createdAt == b[i].createdAt;
      } else {
        assert a[i].createdAt == rest[i - 1].createdAt == b[i - 1].createdAt;
        assert b[0].createdAt >= b[i - 1].createdAt >= b[i].createdAt >= b[k].createdAt;
      }
    }
  }

  /**
   * Two newest-first orderings of the same reports agree on the timestamp at every position,
   * however each orders reports with equal timestamps.
   */
  lemma {:induction false} SameTimestamps(a: seq<Report>, b: seq<Report>)
    requires NewestFirst(a) && NewestFirst(b) && multiset(a) == multiset(b)
    ensures |a| == |b|
    ensures forall i :: 0 <= i < |a| ==> a[i].createdAt == b[i].createdAt
    decreases |a|
  {
    assert |a| == |multiset(a)| == |multiset(b)| == |b|;
    if |a| > 0 {
      assert a[0] in multiset(b);
      var k :| 0 <= k < |b| && b[k] == a[0];
      assert b[0] in multiset(a);
      var m :| 0 <= m < |a| && a[m] == b[0];
      var tail := a[1..];
      var rest := RemoveAt(b, k);
      RemoveKeepsNewestFirst(b, k);
      TailMultiset(a);
      assert multiset(rest) == multiset(tail);
      assert NewestFirst(tail) by {
        forall i, j | 0 <= i < j < |tail| ensures tail[i].createdAt >= tail[j].createdAt {
          assert tail[i] == a[i + 1] && tail[j] == a[j + 1];
        }
      }
      SameTimestamps(tail, rest);
      SameTimestampsStep(a, b, k);
    }
  }

  /**
   * The top ten agree with any newest-first listing of the whole table, such as
   * `findAllByOrderByCreatedAtDesc`: as many reports as its first ten, drawn from it, with the
   * timestamps of its first ten, position by position, whatever order equal timestamps take.
   */
  lemma Top10IsPrefixOfAll(rs: seq<Report>, all: seq<Report>)
    requires multiset(all) == multiset(rs) && NewestFirst(all)
    ensures var top := FindTop10ByOrderByCreatedAtDesc(rs);
            |top| == (if |all| < 10 then |all| else 10)
            && multiset(top) <= multiset(all)
            && forall i :: 0 <= i < |top| ==> top[i].createdAt == all[i].createdAt
  {
    var sorted := SortByKey(rs, ReportNewestKey);
    SortedByNewestKey(sorted);
    SameTimestamps(sorted, all);
    assert FindTop10ByOrderByCreatedAtDesc(rs) == Take(sorted, 10);
  }
}
