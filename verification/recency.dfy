/** The case service: look-up by number (which records the access), the
    recency listing that joins the tracker's order with a bulk fetch of cases
    and slices out one page, and the per-case file count. */
module Recency {
  import opened Basics
  import opened Seqs
  import opened Entities
  import opened Tracker

  /** A `PageImpl`: the content of the requested page, the request, and the
      total number of elements across all pages. */
  datatype Page = Page(content: seq<Case>, page: int, size: int, total: nat)

  /** No two fetched cases share a number. */
  predicate DistinctNumbers(fetched: seq<Case>) {
    forall i, j :: 0 <= i < j < |fetched| ==> fetched[i].number != fetched[j].number
  }

  /** `Collectors.toMap(Case::getNumber, c -> c)`: number to case, or the
      `IllegalStateException` it throws on a repeated key. */
  function CaseMap(fetched: seq<Case>): (r: Result<map<string, Case>>)
    ensures r.Ok? <==> DistinctNumbers(fetched)
    ensures r.Err? ==> r.error == IllegalStateException
    ensures r.Ok? ==> forall c :: c in fetched ==> c.number in r.value && r.value[c.number] == c
    ensures r.Ok? ==> forall n :: n in r.value ==> exists c :: c in fetched && c.number == n
  {
    if fetched == [] then Ok(map[])
    else
      var init := fetched[..|fetched| - 1];
      var last := fetched[|fetched| - 1];
      DistinctSnoc(init, last);
      assert fetched == init + [last];
      match CaseMap(init)
      case Err(e) => Err(e)
      case Ok(m) =>
        if last.number in m then Err(IllegalStateException)
        else Ok(m[last.number := last])
  }

  /** One more fetched case keeps the numbers distinct exactly when its
      number is new. */
  lemma DistinctSnoc(init: seq<Case>, last: Case)
    ensures DistinctNumbers(init + [last]) <==>
      DistinctNumbers(init) && forall c :: c in init ==> c.number != last.number
  {
    var s := init + [last];
    if DistinctNumbers(s) {
      forall c | c in init ensures c.number != last.number {
        var i :| 0 <= i < |init| && init[i] == c;
        assert s[i] == c && s[|init|] == last;
      }
      forall i, j | 0 <= i < j < |init| ensures init[i].number != init[j].number {
        assert s[i] == init[i] && s[j] == init[j];
      }
    }
    if DistinctNumbers(init) && forall c :: c in init ==> c.number != last.number {
      forall i, j | 0 <= i < j < |s| ensures s[i].number != s[j].number {
        if j < |init| {
          assert s[i] == init[i] && s[j] == init[j];
        } else {
          assert s[i] == init[i] && init[i] in init;
        }
      }
    }
  }

  /** The tracker numbers that resolve to a fetched case, in tracker order. */
  function Resolved(numbers: seq<string>, m: map<string, Case>): seq<string>
  {
    if numbers == [] then []
    else (if numbers[0] in m then [numbers[0]] else []) + Resolved(numbers[1..], m)
  }

  /** The stream `numbers.map(caseMap::get).filter(Objects::nonNull)`. */
  function Ordered(numbers: seq<string>, m: map<string, Case>): seq<Case>
  {
    if numbers == [] then []
    else (if numbers[0] in m then [m[numbers[0]]] else []) + Ordered(numbers[1..], m)
  }

  /** A valid `PageRequest.of(page, size)`. */
  predicate ValidRequest(page: int, size: int) {
    page >= 0 && size >= 1
  }

  /** `getRecentCasesReq` after the tracker read and the bulk fetch: build the
      map, restore tracker order, then slice `[page*size, min(page*size+size, n))`.
      Bad arguments fail the way `subList` and `PageRequest.of` fail. */
  function RecentPage(numbers: seq<string>, fetched: seq<Case>, page: int, size: int): (r: Result<Page>)
    ensures r.Ok? ==> r.value.page == page && r.value.size == size && |r.value.content| <= size
    ensures r.Err? ==>
      r.error == IllegalStateException || r.error == IllegalArgumentException || r.error == IndexOutOfBoundsException
  {
    match CaseMap(fetched)
    case Err(e) => Err(e)
    case Ok(m) =>
      var ordered := Ordered(numbers, m);
      var n := |ordered|;
      var start := page * size;
      var end := Min(start + size, n);
      if start > n then
        if ValidRequest(page, size) then Ok(Page([], page, size, n)) else Err(IllegalArgumentException)
      else if start < 0 then Err(IndexOutOfBoundsException)
      else if start > end then Err(IllegalArgumentException)
      else if !ValidRequest(page, size) then Err(IllegalArgumentException)
      else Ok(Page(ordered[start..end], page, size, n))
  }

  /** The ordered list is the resolvable tracker numbers mapped to their
      cases: unresolved numbers are skipped, every resolvable number is kept,
      and tracker order is preserved. */
  lemma OrderedSpec(numbers: seq<string>, m: map<string, Case>)
    ensures |Ordered(numbers, m)| == |Resolved(numbers, m)|
    ensures forall i :: 0 <= i < |Resolved(numbers, m)| ==>
      Resolved(numbers, m)[i] in m && Ordered(numbers, m)[i] == m[Resolved(numbers, m)[i]]
    ensures forall x :: x in Resolved(numbers, m) <==> x in numbers && x in m
    ensures Subseq(Resolved(numbers, m), numbers)
  {
    OrderedResolved(numbers, m);
    ResolvedMembers(numbers, m);
    ResolvedSubseq(numbers, m);
  }

  /** Position by position, the ordered list holds the cases of the resolved numbers. */
  lemma {:induction false} OrderedResolved(numbers: seq<string>, m: map<string, Case>)
    ensures |Ordered(numbers, m)| == |Resolved(numbers, m)|
    ensures forall i :: 0 <= i < |Resolved(numbers, m)| ==>
      Resolved(numbers, m)[i] in m && Ordered(numbers, m)[i] == m[Resolved(numbers, m)[i]]
  {
    if numbers != [] {
      OrderedResolved(numbers[1..], m);
    }
  }

  /** The resolved numbers are exactly the tracker numbers present in the map. */
  lemma {:induction false} ResolvedMembers(numbers: seq<string>, m: map<string, Case>)
    ensures forall x :: x in Resolved(numbers, m) <==> x in numbers && x in m
  {
    if numbers != [] {
      ResolvedMembers(numbers[1..], m);
      assert numbers == [numbers[0]] + numbers[1..];
    }
  }

  lemma {:induction false} ResolvedSubseq(numbers: seq<string>, m: map<string, Case>)
    ensures Subseq(Resolved(numbers, m), numbers)
    decreases |numbers|
  {
    if numbers != [] {
      var init := numbers[..|numbers| - 1];
      var last := numbers[|numbers| - 1];
      ResolvedSnoc(init, last, m);
      assert init + [last] == numbers;
      ResolvedSubseq(init, m);
      if last in m {
        SubseqAppendBoth(Resolved(init, m), init, last);
        assert Resolved(numbers, m) == Resolved(init, m) + [last];
      } else {
        SubseqExtend(Resolved(init, m), init, last);
        assert Resolved(numbers, m) == Resolved(init, m) + [];
        assert Resolved(init, m) + [] == Resolved(init, m);
      }
    }
  }

  lemma {:induction false} ResolvedSnoc(numbers: seq<string>, x: string, m: map<string, Case>)
    ensures Resolved(numbers + [x], m) == Resolved(numbers, m) + (if x in m then [x] else [])
  {
    if numbers != [] {
      assert (numbers + [x])[1..] == numbers[1..] + [x];
      ResolvedSnoc(numbers[1..], x, m);
    } else {
      assert [x][1..] == [];
    }
  }

  /** The ordered list only depends on the map at the tracker numbers. */
  lemma {:induction false} OrderedAgrees(numbers: seq<string>, m1: map<string, Case>, m2: map<string, Case>)
    requires forall n :: n in numbers ==> (n in m1 <==> n in m2)
    requires forall n :: n in numbers && n in m1 ==> m1[n] == m2[n]
    ensures Ordered(numbers, m1) == Ordered(numbers, m2)
  {
    if numbers != [] {
      OrderedAgrees(numbers[1..], m1, m2);
    }
  }

  /** The order of the bulk fetch does not matter: two fetches with the same
      cases, each without repeated numbers, give the same result. */
  lemma FetchOrderIrrelevant(numbers: seq<string>, f1: seq<Case>, f2: seq<Case>, page: int, size: int)
    requires DistinctNumbers(f1) && DistinctNumbers(f2)
    requires forall c :: c in f1 <==> c in f2
    ensures RecentPage(numbers, f1, page, size) == RecentPage(numbers, f2, page, size)
  {
    CaseMapSameCases(f1, f2);
  }

  /** Fetches holding the same cases, without repeated numbers, build the same map. */
  lemma CaseMapSameCases(f1: seq<Case>, f2: seq<Case>)
    requires DistinctNumbers(f1) && DistinctNumbers(f2)
    requires forall c :: c in f1 <==> c in f2
    ensures CaseMap(f1) == CaseMap(f2)
  {
    var m1 := CaseMap(f1).value;
    var m2 := CaseMap(f2).value;
    forall n | n in m1 ensures n in m2 && m1[n] == m2[n] {
      var c :| c in f1 && c.number == n;
    }
    forall n | n in m2 ensures n in m1 {
      var c :| c in f2 && c.number == n;
    }
    assert m1 == m2;
  }

  /** The bulk fetch answered as the repository would: the table is keyed
      by number, and the fetched cases are distinct stored cases including
      every stored case whose number the tracker holds. */
  predicate FetchMatches(numbers: seq<string>, fetched: seq<Case>, table: map<string, Case>) {
    && (forall n :: n in table ==> table[n].number == n)
    && DistinctNumbers(fetched)
    && (forall c :: c in fetched ==> c.number in table && table[c.number] == c)
    && (forall n :: n in numbers && n in table ==> table[n] in fetched)
  }

  /** When the fetch returns exactly the stored cases whose numbers the
      tracker holds, the ordered list is the case table read in tracker order:
      numbers of deleted cases simply drop out. */
  lemma FetchMatchingTable(numbers: seq<string>, fetched: seq<Case>, table: map<string, Case>)
    requires FetchMatches(numbers, fetched, table)
    ensures Ordered(numbers, CaseMap(fetched).value) == Ordered(numbers, table)
  {
    var m := CaseMap(fetched).value;
    forall n | n in numbers ensures (n in m <==> n in table) && (n in m ==> m[n] == table[n]) {
      if n in m {
        var c :| c in fetched && c.number == n;
      }
      if n in table {
        assert table[n] in fetched;
      }
    }
    OrderedAgrees(numbers, m, table);
  }

  /** Errors: repeated fetched numbers fail first, with `IllegalStateException`;
      otherwise the call fails exactly when the page request is invalid. */
  lemma RecentPageErrors(numbers: seq<string>, fetched: seq<Case>, page: int, size: int)
    ensures !DistinctNumbers(fetched) ==> RecentPage(numbers, fetched, page, size) == Err(IllegalStateException)
    ensures DistinctNumbers(fetched) ==>
      (RecentPage(numbers, fetched, page, size).Ok? <==> ValidRequest(page, size))
  {
    if DistinctNumbers(fetched) && !ValidRequest(page, size) {
      var m := CaseMap(fetched).value;
      var n := |Ordered(numbers, m)|;
      if page * size >= 0 && page * size <= n {
        assert page * size <= Min(page * size + size, n) ==> size >= 0;
      }
    }
  }

  /** A valid request returns the total of resolvable cases, whatever the
      page, and as content the slice starting at `page*size`: empty when the
      page starts past the end, otherwise at most `size` elements, element
      `i` being `ordered[page*size + i]`. */
  lemma RecentPageContent(numbers: seq<string>, fetched: seq<Case>, page: int, size: int)
    requires DistinctNumbers(fetched) && ValidRequest(page, size)
    ensures var ordered := Ordered(numbers, CaseMap(fetched).value);
      var r := RecentPage(numbers, fetched, page, size);
      && r.Ok?
      && r.value.total == |ordered|
      && r.value.page == page && r.value.size == size
      && |r.value.content| <= size
      && (page * size >= |ordered| ==> r.value.content == [])
      && (page * size < |ordered| ==> |r.value.content| == Min(size, |ordered| - page * size))
      && (forall i :: 0 <= i < |r.value.content| ==> r.value.content[i] == ordered[page * size + i])
  {
    var ordered := Ordered(numbers, CaseMap(fetched).value);
    var start := page * size;
    assert 0 <= start;
    var end := Min(start + size, |ordered|);
    if start <= |ordered| {
      assert start <= end;
      assert RecentPage(numbers, fetched, page, size) == Ok(Page(ordered[start..end], page, size, |ordered|));
    } else {
      assert RecentPage(numbers, fetched, page, size) == Ok(Page([], page, size, |ordered|));
    }
  }

  /** With a fetch that matches the table, the listing is the table read in
      tracker order and cut into pages: it succeeds exactly for a valid
      request, reports the number of tracked cases still stored, and holds
      the slice of that list the page covers. */
  lemma RecentPageFromTable(numbers: seq<string>, fetched: seq<Case>, table: map<string, Case>, page: int, size: int)
    requires FetchMatches(numbers, fetched, table)
    ensures var ordered := Ordered(numbers, table);
      var r := RecentPage(numbers, fetched, page, size);
      && (r.Ok? <==> ValidRequest(page, size))
      && (ValidRequest(page, size) ==>
            && r.value.total == |ordered|
            && r.value.content == ordered[Min(page * size, |ordered|)..Min(page * size + size, |ordered|)])
  {
    var ordered := Ordered(numbers, table);
    FetchMatchingTable(numbers, fetched, table);
    RecentPageErrors(numbers, fetched, page, size);
    if ValidRequest(page, size) {
      var start := page * size;
      assert 0 <= start;
      var end := Min(start + size, |ordered|);
      if start <= |ordered| {
        assert start <= end;
        assert RecentPage(numbers, fetched, page, size) == Ok(Page(ordered[start..end], page, size, |ordered|));
      } else {
        assert RecentPage(numbers, fetched, page, size) == Ok(Page([], page, size, |ordered|));
      }
    }
  }

  /** With 25 resolvable cases and pages of 10: page 0 holds 10, page 2 holds 5,
      page 3 is empty, and every page reports 25 in total. */
  lemma PaginationExample(numbers: seq<string>, fetched: seq<Case>)
    requires DistinctNumbers(fetched)
    requires |Ordered(numbers, CaseMap(fetched).value)| == 25
    ensures var p0 := RecentPage(numbers, fetched, 0, 10);
      p0.Ok? && |p0.value.content| == 10 && p0.value.total == 25
    ensures var p2 := RecentPage(numbers, fetched, 2, 10);
      p2.Ok? && |p2.value.content| == 5 && p2.value.total == 25
    ensures var p3 := RecentPage(numbers, fetched, 3, 10);
      p3.Ok? && p3.value.content == [] && p3.value.total == 25
  {
    RecentPageContent(numbers, fetched, 0, 10);
    RecentPageContent(numbers, fetched, 2, 10);
    RecentPageContent(numbers, fetched, 3, 10);
  }

  class CaseService {
    const tracker: CaseAccessTracker
    /** The case table, keyed by case number. */
    var cases: map<string, Case>

    constructor (tracker: CaseAccessTracker, cases: map<string, Case>)
      ensures this.tracker == tracker && this.cases == cases
    {
      this.tracker := tracker;
      this.cases := cases;
    }

    /** Looks a case up; only a successful look-up is recorded as an access. */
    method GetCaseByNumber(number: string) returns (r: Result<Case>)
      modifies tracker
      ensures tracker.writeFault == old(tracker.writeFault)
      ensures number !in cases ==>
        r == Err(RuntimeException) && tracker.cases == old(tracker.cases) && tracker.persisted == old(tracker.persisted)
      ensures number in cases ==>
        && r == Ok(cases[number])
        && tracker.cases == MoveToFront(old(tracker.cases), number)
        && tracker.persisted == AfterSave(old(tracker.persisted), tracker.cases, tracker.writeFault)
    {
      if number !in cases {
        return Err(RuntimeException);
      }
      var found := cases[number];
      tracker.AddCaseNumber(number);
      r := Ok(found);
    }

    /** The recency listing over the tracker's current order; `fetched` is
        what the bulk fetch by number returned, in whatever order. When that
        answer matches the case table, the page is cut from the table read
        in tracker order. */
    method GetRecentCasesReq(page: int, size: int, fetched: seq<Case>) returns (r: Result<Page>)
      ensures r == RecentPage(tracker.cases, fetched, page, size)
      ensures FetchMatches(tracker.cases, fetched, cases) ==>
        var ordered := Ordered(tracker.cases, cases);
        && (r.Ok? <==> ValidRequest(page, size))
        && (ValidRequest(page, size) ==>
              && r.value.total == |ordered|
              && r.value.content == ordered[Min(page * size, |ordered|)..Min(page * size + size, |ordered|)])
    {
      var numbers := tracker.GetAccessedCaseNumbers();
      r := RecentPage(numbers, fetched, page, size);
      if FetchMatches(numbers, fetched, cases) {
        RecentPageFromTable(numbers, fetched, cases, page, size);
      }
    }

    /** The number of files of a case. */
    method GetCaseCount(number: string) returns (r: Result<nat>)
      ensures number !in cases ==> r == Err(RuntimeException)
      ensures number in cases ==> r == Ok(|cases[number].caseFiles|)
    {
      if number !in cases {
        return Err(RuntimeException);
      }
      r := Ok(|cases[number].caseFiles|);
    }
  }
}
