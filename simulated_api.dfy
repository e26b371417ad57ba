/**
 * SimulatedComplianceAPI.list_alert_ids: a deterministic page of open alert
 * ids. The random number in each id comes from a generator that is re-seeded
 * on every call; it is a parameter here (draws(j) is the j-th randint).
 */
module SimulatedApi {
  import opened Decimal

  /** The JSON body: {"status", "count", "total", "data"}. */
  datatype AlertPage = AlertPage(status: string, count: nat, total: int, data: seq<string>)

  /** Every draw lies within randint(10_000, 99_999). */
  ghost predicate ValidDraws(draws: nat -> int)
  {
    forall j :: 10000 <= draws(j) <= 99999
  }

  /** The id f"ALRT-{draw}-{index}". */
  function AlertId(draw: int, index: int): (id: string)
    ensures |id| == 6 + |IntToString(draw)| + |IntToString(index)|
    ensures id[..5] == "ALRT-" && id[|id| - |IntToString(index)|..] == IntToString(index)
  {
    "ALRT-" + IntToString(draw) + "-" + IntToString(index)
  }

  /**
   * list_alert_ids(status, limit, offset): total is at least 200 and at least
   * limit + offset, so the page is never cut short: it holds exactly limit ids
   * (none for limit <= 0), numbered offset, offset + 1, ... in order.
   */
  function ListAlertIds(draws: nat -> int, status: string, limit: int, offset: int): (r: AlertPage)
    ensures r.status == status && r.count == |r.data|
    ensures r.total == if limit + offset > 200 then limit + offset else 200
    ensures r.total >= 200 && r.total >= limit + offset
    ensures |r.data| == if limit > 0 then limit else 0
    ensures forall j :: 0 <= j < |r.data| ==> r.data[j] == AlertId(draws(j), offset + j)
  {
    var total := if limit + offset > 200 then limit + offset else 200;
    var stop := if offset + limit < total then offset + limit else total;
    var ids := seq(if stop > offset then stop - offset else 0, (j: nat) => AlertId(draws(j), offset + j));
    AlertPage(status, |ids|, total, ids)
  }

  /** A five-digit draw puts the index, in decimal, right after character 11. */
  lemma AlertIdSuffix(draw: int, index: int)
    requires 10000 <= draw <= 99999
    ensures var id := AlertId(draw, index);
            |id| >= 11 && id[..5] == "ALRT-" && id[10] == '-' && id[11..] == IntToString(index)
  {
    assert Pow10(4) == 10000 by {
      assert Pow10(2) == 100;
    }
    assert Pow10(5) == 100000;
    NatToStringLength(draw, 5);
    var id := AlertId(draw, index);
    assert id == ("ALRT-" + IntToString(draw) + "-") + IntToString(index);
  }

  /** Ids with five-digit draws and different indices differ. */
  lemma AlertIdsDiffer(d1: int, i1: int, d2: int, i2: int)
    requires 10000 <= d1 <= 99999 && 10000 <= d2 <= 99999
    requires AlertId(d1, i1) == AlertId(d2, i2)
    ensures i1 == i2
  {
    AlertIdSuffix(d1, i1);
    AlertIdSuffix(d2, i2);
    IntToStringInjective(i1, i2);
  }

  /** A simulated page never repeats an id. */
  lemma PageIdsDistinct(draws: nat -> int, status: string, limit: int, offset: int)
    requires ValidDraws(draws)
    ensures var ids := ListAlertIds(draws, status, limit, offset).data;
            forall i, j :: 0 <= i < j < |ids| ==> ids[i] != ids[j]
  {
    var ids := ListAlertIds(draws, status, limit, offset).data;
    forall i, j | 0 <= i < j < |ids| ensures ids[i] != ids[j] {
      assert ids[i] == AlertId(draws(i), offset + i);
      assert ids[j] == AlertId(draws(j), offset + j);
      if ids[i] == ids[j] {
        AlertIdsDiffer(draws(i), offset + i, draws(j), offset + j);
      }
    }
  }
}
