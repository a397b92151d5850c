/**
 * `InvoiceAuditor.validate_result`: the report of missing required fields
 * and the VAT consistency check over a parsed invoice record.
 *
 * Numbers are `real`; Python's `round(x, 2)` is modelled as rounding to
 * the nearest hundredth with ties to even, over exact reals.
 */
module Validation {
  import opened Wrappers
  import opened JsonRecovery

  /** The six fields whose absence is reported, in the order they are checked. */
  const Required: seq<string> := ["invoice_number", "date", "supplier", "buyer", "amount", "vat"]

  /** A field is missing when its key is absent or its value is `null`. */
  predicate IsMissing(data: map<string, Json>, key: string) {
    key !in data || data[key] == JNull
  }

  /** The keys of `req` that are missing from `data`, in the order of `req`. */
  function MissingOf(data: map<string, Json>, req: seq<string>): (r: seq<string>)
    ensures forall k :: k in r <==> k in req && IsMissing(data, k)
    ensures |r| <= |req|
  {
    if req == [] then []
    else (if IsMissing(data, req[0]) then [req[0]] else []) + MissingOf(data, req[1..])
  }

  /**
   * Checking one more key appends it to the report exactly when it is
   * missing: the report keeps the order of the keys checked.
   */
  lemma {:induction false} MissingOfAppend(data: map<string, Json>, req: seq<string>, key: string)
    ensures MissingOf(data, req + [key]) == MissingOf(data, req) + (if IsMissing(data, key) then [key] else [])
    decreases |req|
  {
    if req != [] {
      assert (req + [key])[1..] == req[1..] + [key];
      MissingOfAppend(data, req[1..], key);
    }
  }

  /** Python truthiness of a JSON value. */
  predicate Truthy(j: Json) {
    match j
    case JNull => false
    case JBool(b) => b
    case JNumber(n) => n != 0.0
    case JString(s) => s != []
    case JArray(items) => items != []
    case JObject(fields) => fields != map[]
  }

  /** Values Python arithmetic accepts: numbers, and booleans as 0 and 1. */
  predicate Numeric(j: Json) {
    j.JNumber? || j.JBool?
  }

  function NumberOf(j: Json): real
    requires Numeric(j)
  {
    match j
    case JNumber(n) => n
    case JBool(b) => if b then 1.0 else 0.0
  }

  /** `data.get(key, 0)`. */
  function Get(data: map<string, Json>, key: string): (j: Json)
    ensures key in data ==> j == data[key]
    ensures key !in data ==> !Truthy(j)
  {
    if key in data then data[key] else JNumber(0.0)
  }

  /** `round(x, 2)`: the nearest hundredth, ties to the even hundredth. */
  function Round2(x: real): (r: real)
    ensures -1.0 / 200.0 <= r - x <= 1.0 / 200.0
  {
    var y := x * 100.0;
    var f := y.Floor;
    var frac := y - f as real;
    var n := if frac > 0.5 then f + 1 else if frac < 0.5 then f else if f % 2 == 0 then f else f + 1;
    n as real / 100.0
  }

  /** The outcome of the VAT comparison. */
  datatype VatCheck = NotChecked | Consistent(expected: real) | Mismatch(vat: real, expected: real)

  /** What `validate_result` reports (as warnings) next to the record it returns. */
  datatype Validation = Validation(data: map<string, Json>, missing: seq<string>, vat: VatCheck)

  /** `amount * vat_rate / 100` or `vat - expected_vat` applied to a non-number. */
  datatype Raised = TypeError

  /** The amount of VAT the rate implies, to the cent. */
  function ExpectedVat(amount: real, rate: real): real {
    Round2(amount * rate / 100.0)
  }

  function Abs(x: real): real {
    if x < 0.0 then -x else x
  }

  /**
   * `validate_result(data)`: the record comes back unchanged; the missing
   * required fields are reported; the VAT is compared only when amount,
   * VAT and rate are all truthy, and a truthy non-number among them raises.
   */
  function Validate(data: map<string, Json>): (r: Result<Validation, Raised>)
    ensures r.Success? ==> r.value.data == data
    ensures r.Success? ==> forall k :: k in r.value.missing <==> k in Required && IsMissing(data, k)
    ensures var a, v, t := Get(data, "amount"), Get(data, "vat"), Get(data, "vat_rate");
      && (r.Failure? <==> Truthy(a) && Truthy(v) && Truthy(t) && !(Numeric(a) && Numeric(v) && Numeric(t)))
      && (r.Success? ==> (r.value.vat.NotChecked? <==> !(Truthy(a) && Truthy(v) && Truthy(t))))
      && (r.Success? && r.value.vat.Mismatch? ==>
            r.value.vat.vat == NumberOf(v) && r.value.vat.expected == ExpectedVat(NumberOf(a), NumberOf(t)))
      && (r.Success? && r.value.vat.Consistent? ==> r.value.vat.expected == ExpectedVat(NumberOf(a), NumberOf(t)))
      && (r.Success? && !r.value.vat.NotChecked? ==>
            (r.value.vat.Mismatch? <==> Abs(NumberOf(v) - ExpectedVat(NumberOf(a), NumberOf(t))) > 1.0 / 100.0))
  {
    var missing := MissingOf(data, Required);
    var a, v, t := Get(data, "amount"), Get(data, "vat"), Get(data, "vat_rate");
    if !(Truthy(a) && Truthy(v) && Truthy(t)) then
      Success(Validation(data, missing, NotChecked))
    else if !(Numeric(a) && Numeric(v) && Numeric(t)) then
      Failure(TypeError)
    else
      var expected := ExpectedVat(NumberOf(a), NumberOf(t));
      if Abs(NumberOf(v) - expected) > 1.0 / 100.0 then
        Success(Validation(data, missing, Mismatch(NumberOf(v), expected)))
      else
        Success(Validation(data, missing, Consistent(expected)))
  }

  /**
   * Against the exact product, a reported mismatch is off by more than half
   * a cent and an accepted VAT by at most a cent and a half.
   */
  lemma VatCheckAgainstExact(data: map<string, Json>)
    requires Validate(data).Success?
    ensures var r := Validate(data).value; var a, v, t := Get(data, "amount"), Get(data, "vat"), Get(data, "vat_rate");
      && (r.vat.Mismatch? ==> Abs(NumberOf(v) - NumberOf(a) * NumberOf(t) / 100.0) > 1.0 / 200.0)
      && (r.vat.Consistent? ==> Abs(NumberOf(v) - NumberOf(a) * NumberOf(t) / 100.0) <= 3.0 / 200.0)
  {
    var a, v, t := Get(data, "amount"), Get(data, "vat"), Get(data, "vat_rate");
    if Validate(data).value.vat != NotChecked {
      var exact := NumberOf(a) * NumberOf(t) / 100.0;
      assert -1.0 / 200.0 <= ExpectedVat(NumberOf(a), NumberOf(t)) - exact <= 1.0 / 200.0;
    }
  }

  /** A whole number of cents rounds to itself. */
  lemma Round2OfCents(n: int)
    ensures Round2(n as real / 100.0) == n as real / 100.0
  {
    var y := n as real / 100.0 * 100.0;
    assert y == n as real;
    assert y.Floor == n;
  }

  /** A record that already holds 20% VAT to the cent passes the VAT comparison. */
  lemma TwentyPercentConsistent(data: map<string, Json>)
    requires data == map["amount" := JNumber(1000.0), "vat" := JNumber(200.0), "vat_rate" := JNumber(20.0)]
    ensures Validate(data).Success? && Validate(data).value.vat == Consistent(200.0)
  {
    Round2OfCents(20000);
    assert 1000.0 * 20.0 / 100.0 == 20000 as real / 100.0;
  }
}
