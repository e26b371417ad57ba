/** Flattening an alert payload onto the fixed output record. */
module Normalize {
  import opened Wrappers
  import opened PyValue
  import Decimal

  /** The fifteen output columns, in CSV order. */
  const OutColumns: seq<string> := [
    "alert_id", "type_of_alert", "status", "assigned_to_name",
    "creation_date", "resolution_date", "impact_level", "sla_hours",
    "jurisdiction", "category", "tax_code", "monetary_exposure",
    "has_invoice_linked", "order_id", "invoice_id"
  ]

  /** The columns copied straight from the payload key of the same name. */
  predicate IsCopiedColumn(c: string)
  {
    c in OutColumns && c != "assigned_to_name" && c != "monetary_exposure"
  }

  /**
   * to_number: None stays None; an int or float (a bool is an int in Python)
   * becomes a float; anything else is the float parse of its str() form, or
   * None where float() raises.
   */
  function ToNumber(v: Value): (r: Option<real>)
    ensures v.Null? ==> r.None?
    ensures v.Int? ==> r == Some(v.i as real)
    ensures v.Float? ==> r == Some(v.f)
    ensures v.Bool? ==> r == Some(if v.b then 1.0 else 0.0)
    ensures v.Str? ==> r == Decimal.ParseFloat(v.s)
    ensures v.List? || v.Dict? ==> r.None?
  {
    match v
    case Null => None
    case Bool(b) => Some(if b then 1.0 else 0.0)
    case Int(i) => Some(i as real)
    case Float(f) => Some(f)
    case Str(s) => Decimal.ParseFloat(s)
    // str() of a list or dict starts with '[' or '{', which float() rejects
    case List(_) => None
    case Dict(_) => None
  }

  /** An Optional[float] stored back into a row. */
  function FromNumber(x: Option<real>): (v: Value)
    ensures v.Null? || v.Float?
  {
    match x
    case None => Null
    case Some(f) => Float(f)
  }

  /** The owner's name: present only when assigned_to is a dict. */
  function AssigneeName(payload: Row): (name: Value)
    ensures !Get(payload, "assigned_to").Dict? ==> name == Null
    ensures Get(payload, "assigned_to").Dict? ==> name == Get(Get(payload, "assigned_to").entries, "name")
  {
    match Get(payload, "assigned_to")
    case Dict(owner) => Get(owner, "name")
    case _ => Null
  }

  /** The value normalize_alert writes into column c. */
  function ColumnValue(payload: Row, c: string): Value
  {
    if c == "assigned_to_name" then AssigneeName(payload)
    else if c == "monetary_exposure" then FromNumber(ToNumber(Get(payload, c)))
    else Get(payload, c)
  }

  /** normalize_alert: project a payload onto exactly the OutColumns keys. */
  function NormalizeAlert(payload: Row): (r: Row)
    ensures r.Keys == set c | c in OutColumns
    ensures forall c :: IsCopiedColumn(c) ==> c in r && r[c] == Get(payload, c)
    ensures r["assigned_to_name"] == AssigneeName(payload)
    ensures r["monetary_exposure"] == FromNumber(ToNumber(Get(payload, "monetary_exposure")))
  {
    assert OutColumns[3] == "assigned_to_name" && OutColumns[11] == "monetary_exposure";
    map c | c in OutColumns :: ColumnValue(payload, c)
  }

  // ---------------------------------------------------------------------
  // Properties
  // ---------------------------------------------------------------------

  /** The record has fifteen distinct columns. */
  lemma OutColumnsDistinct()
    ensures |OutColumns| == 15
    ensures forall i, j :: 0 <= i < j < |OutColumns| ==> OutColumns[i] != OutColumns[j]
  {
  }

  /** Converting an already converted number changes nothing. */
  lemma ToNumberIdempotent(v: Value)
    ensures ToNumber(FromNumber(ToNumber(v))) == ToNumber(v)
  {
  }

  /**
   * An exposure that arrives as the str() of an int (a payload whose type
   * drifted) normalises to the same number as the int itself.
   */
  lemma ToNumberOfStringifiedInt(n: int)
    ensures ToNumber(Str(Decimal.IntToString(n))) == ToNumber(Int(n))
    ensures ToNumber(Str(Decimal.IntToString(n))) == Some(n as real)
  {
    Decimal.ParseFloatOfIntToString(n);
  }

  /**
   * A string exposure with no digit in it ("N/A", "") becomes null, as far
   * as the decimal float() grammar goes.
   */
  lemma ToNumberOfNonNumericString(payload: Row, s: string)
    requires Get(payload, "monetary_exposure") == Str(s) && !Decimal.HasDigit(s)
    ensures NormalizeAlert(payload)["monetary_exposure"] == Null
  {
  }

  /**
   * The simulator sometimes replaces a two-decimal exposure by its str()
   * form; normalisation turns it back into the same float.
   */
  lemma NormalizeStringifiedExposure(payload: Row, m: nat)
    requires Get(payload, "monetary_exposure") == Str(Decimal.CentsText(m))
    ensures NormalizeAlert(payload)["monetary_exposure"] == Float(m as real / 100.0)
  {
    Decimal.ParseFloatOfCents(m);
  }
}
