/**
 * `get_all_dependents`: the packages that depend on the target package,
 * ranked by descending star count. The dependency-graph API is an oracle:
 * `dependentsCount` is the `dependents_count` of the metadata answer and
 * `fetchPage(p)` the list of (name, stars) entries the API returns for page `p`.
 */
module Dependents {
  import opened Wrappers
  import opened OrderedMap
  import opened Web

  /** One entry of a page of dependents: a package name and its star count. */
  type Dependent = (string, int)

  const PerPage: int := 100

  /** `if not api_key` in Python: a missing key and an empty key both fail. */
  predicate HasApiKey(apiKey: Option<string>)
  {
    apiKey.Some? && apiKey.value != ""
  }

  datatype ConfigError = MissingApiKey

  /**
   * `dependents_count // PER_PAGE + 1`. For a divisor of 100 Dafny's `/`
   * is Python's floor division, negative counts included. For a count of
   * zero or more the pages cover every dependent, there is at least one
   * page, and the last page is empty exactly when the count is a multiple
   * of the page size.
   */
  function NumPages(dependentsCount: int): (n: int)
    ensures dependentsCount >= 0 ==> n >= 1 && (n - 1) * PerPage <= dependentsCount < n * PerPage
    ensures dependentsCount >= 0 ==> (dependentsCount % PerPage == 0 <==> (n - 1) * PerPage == dependentsCount)
    ensures dependentsCount < 0 ==> n <= 0
  {
    dependentsCount / PerPage + 1
  }

  /** `range(1, numPages + 1)`: the pages 1 to `numPages` in increasing order, none if `numPages < 1`. */
  function PageNumbers(numPages: int): (pages: seq<int>)
    ensures |pages| == if numPages > 0 then numPages else 0
    ensures forall i :: 0 <= i < |pages| ==> pages[i] == i + 1
  {
    seq(if numPages > 0 then numPages else 0, i => i + 1)
  }

  /** The page requests issued for `numPages` pages. */
  function PageRequests(numPages: int): seq<Request>
  {
    var pages := PageNumbers(numPages);
    seq(|pages|, i requires 0 <= i < |pages| => DependentsPage(pages[i]))
  }

  /** The answers to the page requests, in request order. */
  function PageResults(numPages: int, fetchPage: int -> seq<Dependent>): seq<seq<Dependent>>
  {
    var pages := PageNumbers(numPages);
    seq(|pages|, i requires 0 <= i < |pages| => fetchPage(pages[i]))
  }

  /** The concatenation of a list of lists: `results += page` for each page. */
  function Flatten<T>(pages: seq<seq<T>>): seq<T>
  {
    if pages == [] then [] else Flatten(pages[..|pages| - 1]) + pages[|pages| - 1]
  }

  /** The page loop: request pages 1 to `numPages` in order and concatenate their entries. */
  method FetchPages(numPages: int, fetchPage: int -> seq<Dependent>)
    returns (results: seq<Dependent>, requests: seq<Request>)
    ensures requests == PageRequests(numPages)
    ensures results == Flatten(PageResults(numPages, fetchPage))
  {
    results, requests := [], [];
    var page := 1;
    while page <= numPages
      invariant 1 <= page <= (if numPages > 0 then numPages else 0) + 1
      invariant requests == PageRequests(page - 1)
      invariant results == Flatten(PageResults(page - 1, fetchPage))
    {
      ghost var done := PageResults(page - 1, fetchPage);
      results := results + fetchPage(page);
      requests := requests + [DependentsPage(page)];
      assert PageResults(page, fetchPage)[..page - 1] == done;
      page := page + 1;
    }
  }

  /** Stars never increase along `s`. */
  predicate NonIncreasing(s: seq<Dependent>)
  {
    forall i, j :: 0 <= i < j < |s| ==> s[i].1 >= s[j].1
  }

  /** Every entry of `s` has at most `bound` stars. */
  predicate AtMost(s: seq<Dependent>, bound: int)
  {
    forall j :: 0 <= j < |s| ==> s[j].1 <= bound
  }

  /**
   * Insertion of `x` into a list sorted by descending stars, in front of
   * the first entry with no more stars than `x`.
   */
  function InsertByStars(x: Dependent, t: seq<Dependent>): (r: seq<Dependent>)
    ensures multiset(r) == multiset(t) + multiset{x}
  {
    if t == [] || x.1 >= t[0].1 then [x] + t
    else
      assert t == [t[0]] + t[1..];
      [t[0]] + InsertByStars(x, t[1..])
  }

  /** An entry of `InsertByStars(x, t)` is `x` or an entry of `t`. */
  lemma {:induction false} InsertedFrom(x: Dependent, t: seq<Dependent>, y: Dependent)
    requires y in InsertByStars(x, t)
    ensures y == x || y in t
  {
    assert y in multiset(InsertByStars(x, t));
  }

  /** A bound on the stars of `x` and of `t` bounds their insertion. */
  lemma {:induction false} InsertAtMost(x: Dependent, t: seq<Dependent>, bound: int)
    requires x.1 <= bound && AtMost(t, bound)
    ensures AtMost(InsertByStars(x, t), bound)
  {
    var r := InsertByStars(x, t);
    forall j | 0 <= j < |r| ensures r[j].1 <= bound {
      InsertedFrom(x, t, r[j]);
    }
  }

  /** Insertion keeps a list sorted by descending stars sorted. */
  lemma {:induction false} InsertNonIncreasing(x: Dependent, t: seq<Dependent>)
    requires NonIncreasing(t)
    ensures NonIncreasing(InsertByStars(x, t))
  {
    if t == [] || x.1 >= t[0].1 {
      HeadBounds(t, x.1);
      NonIncreasingCons(x, t);
    } else {
      SortedTail(t);
      InsertNonIncreasing(x, t[1..]);
      InsertAtMost(x, t[1..], t[0].1);
      NonIncreasingCons(t[0], InsertByStars(x, t[1..]));
    }
  }

  /** A sorted list whose head has at most `bound` stars lies wholly under `bound`. */
  lemma {:induction false} HeadBounds(t: seq<Dependent>, bound: int)
    requires NonIncreasing(t) && (t != [] ==> t[0].1 <= bound)
    ensures AtMost(t, bound)
  {
    forall j | 0 <= j < |t| ensures t[j].1 <= bound {
      if j > 0 {
        assert t[0].1 >= t[j].1;
      }
    }
  }

  /** The tail of a sorted list is sorted and lies under its head. */
  lemma {:induction false} SortedTail(t: seq<Dependent>)
    requires NonIncreasing(t) && t != []
    ensures NonIncreasing(t[1..]) && AtMost(t[1..], t[0].1)
  {
    forall j | 0 <= j < |t[1..]| ensures t[1..][j].1 <= t[0].1 {
      assert t[1..][j] == t[j + 1];
    }
  }

  /** Putting an entry with the most stars in front of a sorted list keeps it sorted. */
  lemma {:induction false} NonIncreasingCons(y: Dependent, s: seq<Dependent>)
    requires NonIncreasing(s) && AtMost(s, y.1)
    ensures NonIncreasing([y] + s)
  {
    var r := [y] + s;
    forall i, j | 0 <= i < j < |r| ensures r[i].1 >= r[j].1 {
      assert r[j] == s[j - 1];
      if i > 0 {
        assert r[i] == s[i - 1];
      }
    }
  }

  /**
   * `sorted(entries, key=lambda pkg: -pkg[1])`: a permutation of `s` in
   * which stars never increase. Python's sort is stable, and so is this
   * insertion sort: an entry goes in front of every later entry with as
   * many stars (see `SortStable`).
   */
  function SortByStars(s: seq<Dependent>): (r: seq<Dependent>)
    ensures multiset(r) == multiset(s)
    ensures NonIncreasing(r)
  {
    if s == [] then []
    else
      assert s == [s[0]] + s[1..];
      InsertNonIncreasing(s[0], SortByStars(s[1..]));
      InsertByStars(s[0], SortByStars(s[1..]))
  }

  /** `a` goes before `b`: more stars, or as many and a smaller `rank`. */
  ghost predicate Precedes(a: Dependent, b: Dependent, rank: Dependent -> int)
  {
    a.1 > b.1 || (a.1 == b.1 && rank(a) < rank(b))
  }

  /**
   * `s` is ordered by descending stars, and entries with equal stars by
   * increasing `rank`.
   */
  ghost predicate OrderedBy(s: seq<Dependent>, rank: Dependent -> int)
  {
    forall i, j :: 0 <= i < j < |s| ==> Precedes(s[i], s[j], rank)
  }

  /** A list is ordered when its head precedes every other entry and its tail is ordered. */
  lemma {:induction false} OrderedCons(y: Dependent, s: seq<Dependent>, rank: Dependent -> int)
    requires forall j :: 0 <= j < |s| ==> Precedes(y, s[j], rank)
    requires OrderedBy(s, rank)
    ensures OrderedBy([y] + s, rank)
  {
    var r := [y] + s;
    forall i, j | 0 <= i < j < |r| ensures Precedes(r[i], r[j], rank) {
      assert r[j] == s[j - 1];
      if i > 0 {
        assert r[i] == s[i - 1];
      }
    }
  }

  /** Inserting an entry that ranks before every entry of `t` keeps `t` ordered. */
  lemma {:induction false} InsertStable(x: Dependent, t: seq<Dependent>, rank: Dependent -> int)
    requires OrderedBy(t, rank)
    requires forall y :: y in t ==> rank(x) < rank(y)
    ensures OrderedBy(InsertByStars(x, t), rank)
  {
    if t == [] || x.1 >= t[0].1 {
      forall j | 0 <= j < |t| ensures Precedes(x, t[j], rank) {
        assert t[j] in t;
        if j > 0 {
          assert Precedes(t[0], t[j], rank);
        }
      }
      OrderedCons(x, t, rank);
    } else {
      var rest := InsertByStars(x, t[1..]);
      assert t == [t[0]] + t[1..];
      assert OrderedBy(t[1..], rank) by {
        forall i, j | 0 <= i < j < |t[1..]| ensures Precedes(t[1..][i], t[1..][j], rank) {
          assert t[1..][i] == t[i + 1] && t[1..][j] == t[j + 1];
        }
      }
      forall y | y in t[1..] ensures rank(x) < rank(y) {
        assert y in t;
      }
      InsertStable(x, t[1..], rank);
      forall j | 0 <= j < |rest| ensures Precedes(t[0], rest[j], rank) {
        InsertedFrom(x, t[1..], rest[j]);
        if rest[j] != x {
          var k :| 0 <= k < |t[1..]| && t[1..][k] == rest[j];
          assert t[k + 1] == rest[j];
          assert Precedes(t[0], t[k + 1], rank);
        }
      }
      OrderedCons(t[0], rest, rank);
    }
  }

  /**
   * Stability: when `rank` strictly increases along `s`, sorting by stars
   * leaves entries with equal stars in increasing `rank`, that is in the
   * order they had in `s`.
   */
  lemma {:induction false} SortStable(s: seq<Dependent>, rank: Dependent -> int)
    requires forall i, j :: 0 <= i < j < |s| ==> rank(s[i]) < rank(s[j])
    ensures OrderedBy(SortByStars(s), rank)
  {
    if s != [] {
      var sorted := SortByStars(s[1..]);
      SortStable(s[1..], rank);
      forall y | y in sorted ensures rank(s[0]) < rank(y) {
        assert y in multiset(s[1..]);
        var k :| 0 <= k < |s[1..]| && s[1..][k] == y;
        assert s[k + 1] == y;
      }
      InsertStable(s[0], sorted, rank);
    }
  }

  /**
   * The ranked list: entries deduplicated by name (first-seen position,
   * last-seen stars), stably sorted by descending stars, names only.
   */
  function Rank(results: seq<Dependent>): seq<string>
  {
    Keys(SortByStars(FromPairs(results)))
  }

  /** The stars a name ends up with: those of its last entry. */
  function StarsOf(results: seq<Dependent>, name: string): int
    requires name in Keys(results)
  {
    LastValue(results, name)
  }

  /** Position of a name's first entry, used as the tie-breaking rank. */
  function FirstSeen(results: seq<Dependent>): Dependent -> int
  {
    (y: Dependent) => if y.0 in Keys(results) then FirstIndex(results, y.0) else 0
  }

  /** Each ranked entry is one of the deduplicated entries. */
  lemma {:induction false} RankedFrom(results: seq<Dependent>, i: nat) returns (a: nat)
    requires i < |SortByStars(FromPairs(results))|
    ensures a < |FromPairs(results)| && FromPairs(results)[a] == SortByStars(FromPairs(results))[i]
  {
    var s := SortByStars(FromPairs(results));
    assert s[i] in multiset(s);
    a :| 0 <= a < |FromPairs(results)| && FromPairs(results)[a] == s[i];
  }

  /** Each deduplicated entry is ranked. */
  lemma {:induction false} RankedTo(results: seq<Dependent>, a: nat) returns (i: nat)
    requires a < |FromPairs(results)|
    ensures i < |SortByStars(FromPairs(results))| && FromPairs(results)[a] == SortByStars(FromPairs(results))[i]
  {
    var d := FromPairs(results);
    assert d[a] in multiset(SortByStars(d));
    i :| 0 <= i < |SortByStars(d)| && SortByStars(d)[i] == d[a];
  }

  /** The ranked entries are ordered by stars and then by first occurrence. */
  lemma {:induction false} RankedOrder(results: seq<Dependent>)
    ensures OrderedBy(SortByStars(FromPairs(results)), FirstSeen(results))
  {
    var d := FromPairs(results);
    forall i, j | 0 <= i < j < |d| ensures FirstSeen(results)(d[i]) < FirstSeen(results)(d[j]) {
      FromPairsFirstSeen(results, i, j);
    }
    SortStable(d, FirstSeen(results));
  }

  /** Two positions of the ranked list hold two different names. */
  lemma {:induction false} RankDistinctAt(results: seq<Dependent>, i: nat, j: nat)
    requires i < j < |Rank(results)|
    ensures Rank(results)[i] != Rank(results)[j]
  {
    var d := FromPairs(results);
    var s := SortByStars(d);
    assert Rank(results)[i] == s[i].0 && Rank(results)[j] == s[j].0;
    var a := RankedFrom(results, i);
    var b := RankedFrom(results, j);
    RankedOrder(results);
    assert Precedes(s[i], s[j], FirstSeen(results));
    assert a != b ==> d[a].0 != d[b].0;
  }

  /** Every ranked name is the name of some page entry. */
  lemma {:induction false} RankedIsListed(results: seq<Dependent>, i: nat)
    requires i < |Rank(results)|
    ensures Rank(results)[i] in Keys(results)
  {
    var d := FromPairs(results);
    var s := SortByStars(d);
    assert Rank(results)[i] == s[i].0;
    var a := RankedFrom(results, i);
    assert d[a].0 in Keys(results);
  }

  /** The name of every page entry is ranked. */
  lemma {:induction false} ListedIsRanked(results: seq<Dependent>, k: nat)
    requires k < |results|
    ensures results[k].0 in Rank(results)
  {
    var d := FromPairs(results);
    var s := SortByStars(d);
    var n := results[k].0;
    assert n in Keys(d);
    var a :| 0 <= a < |d| && Keys(d)[a] == n;
    var i := RankedTo(results, a);
    assert Rank(results)[i] == n;
  }

  /** Every name of every page entry is in the ranked list exactly once, and no other name is. */
  lemma {:induction false} RankNamesExactlyOnce(results: seq<Dependent>)
    ensures forall n :: n in Rank(results) <==> n in Keys(results)
    ensures forall i, j :: 0 <= i < j < |Rank(results)| ==> Rank(results)[i] != Rank(results)[j]
  {
    var r := Rank(results);
    forall n ensures n in r <==> n in Keys(results) {
      if n in r {
        var i :| 0 <= i < |r| && r[i] == n;
        RankedIsListed(results, i);
      }
      if n in Keys(results) {
        var k :| 0 <= k < |results| && Keys(results)[k] == n;
        ListedIsRanked(results, k);
      }
    }
    forall i, j | 0 <= i < j < |r| ensures r[i] != r[j] {
      RankDistinctAt(results, i, j);
    }
  }

  /**
   * Along the ranked list the last-seen stars never increase, and names
   * with equal stars keep the order of their first occurrence.
   */
  lemma {:induction false} RankOrdered(results: seq<Dependent>, i: nat, j: nat)
    requires i < j < |Rank(results)|
    ensures Rank(results)[i] in Keys(results) && Rank(results)[j] in Keys(results)
    ensures StarsOf(results, Rank(results)[i]) >= StarsOf(results, Rank(results)[j])
    ensures StarsOf(results, Rank(results)[i]) == StarsOf(results, Rank(results)[j]) ==>
              FirstIndex(results, Rank(results)[i]) < FirstIndex(results, Rank(results)[j])
  {
    var d := FromPairs(results);
    var s := SortByStars(d);
    var r := Rank(results);
    assert r[i] == s[i].0 && r[j] == s[j].0;
    var a := RankedFrom(results, i);
    var b := RankedFrom(results, j);
    FromPairsLastValue(results, a);
    FromPairsLastValue(results, b);
    RankedOrder(results);
    assert Precedes(s[i], s[j], FirstSeen(results));
  }

  /**
   * `get_all_dependents`: without an API key it fails before any request;
   * with one it requests the metadata, then pages 1 to `NumPages` in order,
   * and returns the ranked names of all their entries.
   */
  method GetAllDependents(apiKey: Option<string>, dependentsCount: int, fetchPage: int -> seq<Dependent>)
    returns (r: Result<seq<string>, ConfigError>, requests: seq<Request>)
    ensures !HasApiKey(apiKey) ==> r == Failure(MissingApiKey) && requests == []
    ensures HasApiKey(apiKey) ==> requests == [DependentsInfo] + PageRequests(NumPages(dependentsCount))
    ensures HasApiKey(apiKey) ==> r == Success(Rank(Flatten(PageResults(NumPages(dependentsCount), fetchPage))))
  {
    if !HasApiKey(apiKey) {
      return Failure(MissingApiKey), [];
    }
    var numPages := NumPages(dependentsCount);
    var results, pageRequests := FetchPages(numPages, fetchPage);
    r := Success(Rank(results));
    requests := [DependentsInfo] + pageRequests;
  }
}
