/**
 * The id collection at the start of run(): read pages of open alert ids,
 * advancing the offset by the page size, until a page comes back empty or
 * at least `limit` ids are in hand; keep the first `limit`; refuse fewer
 * than 100.
 */
module Pagination {
  import opened Wrappers
  import SimulatedApi

  /**
   * ComplianceRepository.list_ids(status="open", limit=page_size, offset=o)
   * as a function of o: the page's ids, or the error it raised.
   */
  type PageSource = int -> Result<seq<string>, string>

  datatype RunError =
    | ListFailed(reason: string)  // list_ids raised; run() propagates it
    | TooFewIds(got: nat)         // RuntimeError("Precisa de >=100 IDs ...")

  const MinAlertIds: nat := 100

  /** The page read i steps after `offset`. */
  function PageAfter(fetch: PageSource, pageSize: int, offset: int, i: nat): Result<seq<string>, string>
  {
    fetch(offset + i * pageSize)
  }

  /**
   * The while loop, resumed at `offset` with `collected` in hand. The ids
   * gathered only grow, and a result shorter than `limit` means that the
   * page at the current offset, or at one the loop stepped on to, came back
   * empty.
   */
  function Paginate(fetch: PageSource, limit: int, pageSize: int, offset: int, collected: seq<string>)
    : (r: Result<seq<string>, string>)
    ensures r.Success? ==> collected <= r.value
    ensures r.Success? && |collected| < limit ==> |r.value| > |collected| || fetch(offset) == Success([])
    ensures r.Success? && |r.value| < limit ==> exists i: nat :: PageAfter(fetch, pageSize, offset, i) == Success([])
    decreases if |collected| < limit then limit - |collected| else 0
  {
    if |collected| >= limit then Success(collected)
    else
      match fetch(offset)
      case Failure(e) => Failure(e)
      case Success(page) =>
        if page == [] then
          assert PageAfter(fetch, pageSize, offset, 0) == Success([]);
          Success(collected)
        else
          var r := Paginate(fetch, limit, pageSize, offset + pageSize, collected + page);
          assert r.Success? && |r.value| < limit ==> exists i: nat :: PageAfter(fetch, pageSize, offset, i) == Success([]) by {
            if r.Success? && |r.value| < limit {
              var i: nat :| PageAfter(fetch, pageSize, offset + pageSize, i) == Success([]);
              assert offset + (i + 1) * pageSize == offset + pageSize + i * pageSize;
              assert PageAfter(fetch, pageSize, offset, i + 1) == Success([]);
            }
          }
          r
  }

  /** Python's s[:k]: a prefix; a negative k drops that many from the end. */
  function SliceTo(s: seq<string>, k: int): (t: seq<string>)
    ensures t <= s
    ensures k >= 0 ==> |t| == (if k < |s| then k else |s|)
    ensures k < 0 ==> |t| == (if |s| + k > 0 then |s| + k else 0)
  {
    if k >= 0 then (if k < |s| then s[..k] else s)
    else if |s| + k > 0 then s[..|s| + k]
    else []
  }

  /** alert_ids = collected[:limit], and the check for at least 100 of them. */
  function SelectAlertIds(collected: seq<string>, limit: int): (r: Result<seq<string>, RunError>)
    ensures r.Success? <==> |SliceTo(collected, limit)| >= MinAlertIds
    ensures r.Success? ==> r.value == SliceTo(collected, limit)
    ensures r.Failure? ==> r.error == TooFewIds(|SliceTo(collected, limit)|)
  {
    var ids := SliceTo(collected, limit);
    if |ids| < MinAlertIds then Failure(TooFewIds(|ids|)) else Success(ids)
  }

  /** The alert ids run() goes on to fetch details for, or why it stopped. */
  function AlertIds(fetch: PageSource, limit: int, pageSize: int): (r: Result<seq<string>, RunError>)
    ensures r.Success? ==> MinAlertIds <= |r.value| <= limit
  {
    match Paginate(fetch, limit, pageSize, 0, [])
    case Failure(e) => Failure(ListFailed(e))
    case Success(collected) => SelectAlertIds(collected, limit)
  }

  /** Lines 316-328 of run(), with the rate-limit sleep left out. */
  method CollectAlertIds(fetch: PageSource, limit: int, pageSize: int) returns (r: Result<seq<string>, RunError>)
    ensures r == AlertIds(fetch, limit, pageSize)
    ensures r.Success? ==> MinAlertIds <= |r.value| <= limit
  {
    var collected: seq<string> := [];
    var offset := 0;
    while |collected| < limit
      invariant Paginate(fetch, limit, pageSize, offset, collected) == Paginate(fetch, limit, pageSize, 0, [])
      decreases limit - |collected|
    {
      var page := fetch(offset);
      if page.Failure? {
        return Failure(ListFailed(page.error));
      }
      if page.value == [] {
        break;
      }
      collected := collected + page.value;
      offset := offset + pageSize;
    }
    var alertIds := SliceTo(collected, limit);
    if |alertIds| < MinAlertIds {
      return Failure(TooFewIds(|alertIds|));
    }
    return Success(alertIds);
  }

  // ---------------------------------------------------------------------
  // The loop read page by page
  // ---------------------------------------------------------------------

  /** The i-th page requested: offset i * page_size. */
  function PageAt(fetch: PageSource, pageSize: int, i: nat): Result<seq<string>, string>
  {
    PageAfter(fetch, pageSize, 0, i)
  }

  /** The first n pages were read without error and none was empty. */
  ghost predicate NonEmptyPages(fetch: PageSource, pageSize: int, n: nat)
  {
    forall i :: 0 <= i < n ==> PageAt(fetch, pageSize, i).Success? && PageAt(fetch, pageSize, i).value != []
  }

  /** The first n pages, concatenated in order. */
  ghost function Gathered(fetch: PageSource, pageSize: int, n: nat): seq<string>
    requires NonEmptyPages(fetch, pageSize, n)
  {
    if n == 0 then [] else Gathered(fetch, pageSize, n - 1) + PageAt(fetch, pageSize, n - 1).value
  }

  /** Pages m .. n-1 each leave fewer than limit ids, so the loop reads them all. */
  lemma {:induction false} PaginateAcross(fetch: PageSource, limit: int, pageSize: int, m: nat, n: nat)
    requires m <= n && NonEmptyPages(fetch, pageSize, n)
    requires forall i :: m <= i < n ==> |Gathered(fetch, pageSize, i)| < limit
    ensures Paginate(fetch, limit, pageSize, m * pageSize, Gathered(fetch, pageSize, m))
         == Paginate(fetch, limit, pageSize, n * pageSize, Gathered(fetch, pageSize, n))
    decreases n - m
  {
    if m < n {
      assert (m + 1) * pageSize == m * pageSize + pageSize;
      assert PageAt(fetch, pageSize, m).Success?;
      PaginateAcross(fetch, limit, pageSize, m + 1, n);
    }
  }

  /**
   * The outcome of the loop, stated by pages: if pages 0 .. n-1 were read,
   * each non-empty and each leaving fewer than limit ids, then the loop stops
   * at page n when page n is empty or limit ids are in hand (alert_ids is then
   * the first min(limit, |ids|) of the pages in order), and fails with page
   * n's error when it raises.
   */
  lemma PaginationStopsAt(fetch: PageSource, limit: int, pageSize: int, n: nat)
    requires NonEmptyPages(fetch, pageSize, n)
    requires forall i :: 0 <= i < n ==> |Gathered(fetch, pageSize, i)| < limit
    ensures |Gathered(fetch, pageSize, n)| >= limit ==>
              AlertIds(fetch, limit, pageSize) == SelectAlertIds(Gathered(fetch, pageSize, n), limit)
    ensures |Gathered(fetch, pageSize, n)| < limit && PageAt(fetch, pageSize, n) == Success([]) ==>
              AlertIds(fetch, limit, pageSize) == SelectAlertIds(Gathered(fetch, pageSize, n), limit)
    ensures |Gathered(fetch, pageSize, n)| < limit && PageAt(fetch, pageSize, n).Failure? ==>
              AlertIds(fetch, limit, pageSize) == Failure(ListFailed(PageAt(fetch, pageSize, n).error))
  {
    PaginateAcross(fetch, limit, pageSize, 0, n);
    assert 0 * pageSize == 0;
  }

  // ---------------------------------------------------------------------
  // Against the simulated API
  // ---------------------------------------------------------------------

  /**
   * list_ids backed by the simulator: it never raises, and every page holds
   * page_size ids (none when page_size <= 0), whatever the offset.
   */
  function SimulatedSource(draws: nat -> int, pageSize: int): (fetch: PageSource)
    ensures forall offset :: fetch(offset).Success?
    ensures forall offset :: |fetch(offset).value| == if pageSize > 0 then pageSize else 0
  {
    offset => Success(SimulatedApi.ListAlertIds(draws, "open", pageSize, offset).data)
  }

  /** id is ALRT-<five digits>-<i>. */
  ghost predicate IsAlertIdFor(id: string, i: int)
  {
    exists d :: 10000 <= d <= 99999 && id == SimulatedApi.AlertId(d, i)
  }

  /** The i-th id is ALRT-<five digits>-<i>. */
  ghost predicate Numbered(ids: seq<string>)
  {
    forall i :: 0 <= i < |ids| ==> IsAlertIdFor(ids[i], i)
  }

  lemma {:induction false} SimulatedPaginate(draws: nat -> int, limit: int, pageSize: int, collected: seq<string>)
    requires SimulatedApi.ValidDraws(draws) && pageSize >= 1 && Numbered(collected)
    ensures var r := Paginate(SimulatedSource(draws, pageSize), limit, pageSize, |collected|, collected);
            r.Success? && Numbered(r.value) && |r.value| >= limit
    decreases if |collected| < limit then limit - |collected| else 0
  {
    if |collected| < limit {
      var page := SimulatedApi.ListAlertIds(draws, "open", pageSize, |collected|).data;
      var next := collected + page;
      assert Numbered(next) by {
        forall i | 0 <= i < |next|
          ensures IsAlertIdFor(next[i], i)
        {
          if i >= |collected| {
            var j := i - |collected|;
            assert 10000 <= draws(j) <= 99999;
            assert next[i] == SimulatedApi.AlertId(draws(j), i);
          } else {
            assert IsAlertIdFor(collected[i], i);
            assert next[i] == collected[i];
          }
        }
      }
      SimulatedPaginate(draws, limit, pageSize, next);
    }
  }

  /** Numbered ids are pairwise distinct. */
  lemma NumberedDistinct(ids: seq<string>)
    requires Numbered(ids)
    ensures forall i, j :: 0 <= i < j < |ids| ==> ids[i] != ids[j]
  {
    forall i, j | 0 <= i < j < |ids| ensures ids[i] != ids[j] {
      var di :| 10000 <= di <= 99999 && ids[i] == SimulatedApi.AlertId(di, i);
      var dj :| 10000 <= dj <= 99999 && ids[j] == SimulatedApi.AlertId(dj, j);
      if ids[i] == ids[j] {
        SimulatedApi.AlertIdsDiffer(di, i, dj, j);
      }
    }
  }

  /**
   * Against the simulator the collection succeeds exactly when limit >= 100
   * and page_size >= 1, and then yields limit distinct ids numbered 0 ..
   * limit-1 in order.
   */
  lemma SimulatedRun(draws: nat -> int, limit: int, pageSize: int)
    requires SimulatedApi.ValidDraws(draws)
    ensures var r := AlertIds(SimulatedSource(draws, pageSize), limit, pageSize);
            && (r.Success? <==> limit >= MinAlertIds && pageSize >= 1)
            && (r.Success? ==> |r.value| == limit && Numbered(r.value))
            && (r.Success? ==> forall i, j :: 0 <= i < j < |r.value| ==> r.value[i] != r.value[j])
  {
    var fetch := SimulatedSource(draws, pageSize);
    var r := AlertIds(fetch, limit, pageSize);
    if pageSize >= 1 {
      SimulatedPaginate(draws, limit, pageSize, []);
      var collected := Paginate(fetch, limit, pageSize, 0, []).value;
      if r.Success? {
        assert r.value <= collected;
        assert Numbered(r.value) by {
          forall i | 0 <= i < |r.value|
            ensures IsAlertIdFor(r.value[i], i)
          {
            assert IsAlertIdFor(collected[i], i);
            assert r.value[i] == collected[i];
          }
        }
        NumberedDistinct(r.value);
      }
    } else if limit > 0 {
      assert fetch(0) == Success([]);
    }
  }
}
