/** eda_summary: counts and distributions over the flattened alert rows. */
module Summary {
  import opened Wrappers
  import opened PyValue
  import opened Counter
  import Percentile

  /** Counter raised TypeError: a row held a list or dict under this field. */
  datatype SummaryError = Unhashable(field: string)

  datatype Summary = Summary(
    totalAlerts: nat,
    statusDistribution: seq<Bucket<Key>>,
    typeDistribution: seq<Bucket<Key>>,
    impactDistribution: seq<Bucket<Key>>,
    assignedPresent: nat,
    assignedMissing: int,
    unresolvedCount: nat,
    exposureP95: real)

  /** The keys r.get(field) for r in rows, or None if one is unhashable. */
  function FieldKeys(rows: seq<Row>, field: string): (ks: Option<seq<Key>>)
    ensures ks.Some? ==> |ks.value| == |rows|
    ensures ks.None? <==> exists i :: 0 <= i < |rows| && HashKey(Get(rows[i], field)).None?
  {
    if rows == [] then Some([])
    else
      match (HashKey(Get(rows[0], field)), FieldKeys(rows[1..], field))
      case (Some(k), Some(rest)) => Some([k] + rest)
      case _ =>
        assert forall i :: 1 <= i < |rows| ==> rows[i] == rows[1..][i - 1];
        None
  }

  /** The number of rows whose field files under key k. */
  function RowsWithKey(rows: seq<Row>, field: string, k: Key): nat
  {
    if rows == [] then 0
    else (if HashKey(Get(rows[0], field)) == Some(k) then 1 else 0) + RowsWithKey(rows[1..], field, k)
  }

  lemma {:induction false} FieldKeysCount(rows: seq<Row>, field: string, k: Key)
    requires FieldKeys(rows, field).Some?
    ensures multiset(FieldKeys(rows, field).value)[k] == RowsWithKey(rows, field, k)
  {
    if rows != [] {
      FieldKeysCount(rows[1..], field, k);
      var ks := FieldKeys(rows, field).value;
      assert ks == [ks[0]] + FieldKeys(rows[1..], field).value;
    }
  }

  /**
   * dict(Counter(r.get(field) for r in rows)): one bucket per distinct key,
   * holding exactly the number of rows with that key; the counts are positive
   * and add up to the number of rows.
   */
  function Distribution(rows: seq<Row>, field: string): (d: Option<seq<Bucket<Key>>>)
    ensures d.None? <==> exists i :: 0 <= i < |rows| && HashKey(Get(rows[i], field)).None?
    ensures d.Some? ==> Total(d.value) == |rows|
    ensures d.Some? ==> forall k :: CountOf(d.value, k) == RowsWithKey(rows, field, k)
    ensures d.Some? ==> forall k :: HasKey(d.value, k) <==> RowsWithKey(rows, field, k) > 0
    ensures d.Some? ==> DistinctKeys(d.value) && PositiveCounts(d.value)
  {
    match FieldKeys(rows, field)
    case None => None
    case Some(ks) =>
      assert forall k :: multiset(ks)[k] == RowsWithKey(rows, field, k) by {
        forall k ensures multiset(ks)[k] == RowsWithKey(rows, field, k) {
          FieldKeysCount(rows, field, k);
        }
      }
      Some(Tally(ks))
  }

  /** sum(1 for r in rows if r.get(field)), or with `not` when want is false. */
  function CountWhere(rows: seq<Row>, field: string, want: bool): (n: nat)
    ensures n <= |rows|
  {
    if rows == [] then 0
    else (if Truthy(Get(rows[0], field)) == want then 1 else 0) + CountWhere(rows[1..], field, want)
  }

  /** Every row is counted exactly once by the truthy and the falsy count. */
  lemma {:induction false} CountWhereSplit(rows: seq<Row>, field: string)
    ensures CountWhere(rows, field, true) + CountWhere(rows, field, false) == |rows|
  {
    if rows != [] {
      CountWhereSplit(rows[1..], field);
    }
  }

  /** The exposures that are numbers: ints (bools included) and floats. */
  function Exposures(rows: seq<Row>): (xs: seq<real>)
    ensures |xs| <= |rows|
  {
    if rows == [] then []
    else
      var rest := Exposures(rows[1..]);
      match Get(rows[0], "monetary_exposure")
      case Int(i) => [i as real] + rest
      case Float(f) => [f] + rest
      case Bool(b) => [if b then 1.0 else 0.0] + rest
      case _ => rest
  }

  /**
   * eda_summary without the rounded mean: the owner and resolution counts
   * partition the rows, and each distribution counts every row once.
   */
  function EdaSummary(rows: seq<Row>): (r: Result<Summary, SummaryError>)
    ensures r.Failure? <==> exists i, f :: 0 <= i < |rows| && f in {"status", "type_of_alert", "impact_level"}
                                            && HashKey(Get(rows[i], f)).None?
    ensures (exists i :: 0 <= i < |rows| && HashKey(Get(rows[i], "status")).None?) ==>
              r == Failure(Unhashable("status"))
    ensures (forall i :: 0 <= i < |rows| ==> HashKey(Get(rows[i], "status")).Some?)
            && (exists i :: 0 <= i < |rows| && HashKey(Get(rows[i], "type_of_alert")).None?) ==>
              r == Failure(Unhashable("type_of_alert"))
    ensures r.Success? ==> r.value.totalAlerts == |rows|
    ensures r.Success? ==> r.value.assignedPresent == CountWhere(rows, "assigned_to_name", true)
    ensures r.Success? ==> r.value.assignedPresent + r.value.assignedMissing == r.value.totalAlerts
    ensures r.Success? ==> 0 <= r.value.assignedPresent <= r.value.totalAlerts
    ensures r.Success? ==> 0 <= r.value.unresolvedCount <= r.value.totalAlerts
    ensures r.Success? ==> r.value.unresolvedCount + CountWhere(rows, "resolution_date", true) == |rows|
    ensures r.Success? ==> && Total(r.value.statusDistribution) == r.value.totalAlerts
                           && Total(r.value.typeDistribution) == r.value.totalAlerts
                           && Total(r.value.impactDistribution) == r.value.totalAlerts
    ensures r.Success? ==> && Some(r.value.statusDistribution) == Distribution(rows, "status")
                           && Some(r.value.typeDistribution) == Distribution(rows, "type_of_alert")
                           && Some(r.value.impactDistribution) == Distribution(rows, "impact_level")
    ensures r.Success? ==> forall k :: && CountOf(r.value.statusDistribution, k) == RowsWithKey(rows, "status", k)
                                       && CountOf(r.value.typeDistribution, k) == RowsWithKey(rows, "type_of_alert", k)
                                       && CountOf(r.value.impactDistribution, k) == RowsWithKey(rows, "impact_level", k)
    ensures r.Success? && Exposures(rows) != [] ==>
              Percentile.Min(Exposures(rows)) <= r.value.exposureP95 <= Percentile.Max(Exposures(rows))
    ensures r.Success? && Exposures(rows) == [] ==> r.value.exposureP95 == 0.0
  {
    var present := CountWhere(rows, "assigned_to_name", true);
    var unresolved := CountWhere(rows, "resolution_date", false);
    CountWhereSplit(rows, "resolution_date");
    var exposures := Exposures(rows);
    var p95 := if exposures != [] then Percentile.Percentile(exposures, 95.0) else 0.0;
    match (Distribution(rows, "status"), Distribution(rows, "type_of_alert"), Distribution(rows, "impact_level"))
    case (None, _, _) => Failure(Unhashable("status"))
    case (_, None, _) => Failure(Unhashable("type_of_alert"))
    case (_, _, None) => Failure(Unhashable("impact_level"))
    case (Some(st), Some(ty), Some(im)) =>
      Success(Summary(|rows|, st, ty, im, present, |rows| - present, unresolved, p95))
  }
}
