/** `TariffProcessor` (src/parser/tariff_processor.py): the split of the
    collected tariffs into kept tariffs and error reports, and the summary
    counts. */
module TariffProcessor {
  import opened Wrappers
  import opened Strings
  import opened Folds
  import opened TariffModel
  import opened Rounding

  // -------------------------------------------------------------- validation

  /** A tariff that passes validation: it has a name and a price. */
  predicate IsValid(t: Tariff) {
    t.name != [] && t.price.Some?
  }

  /** The error reports of `validate_tariffs`: a tariff without a name is
      reported whole, a tariff without a price by its name. */
  datatype ValidationError = NoName(tariff: Tariff) | NoPrice(name: string)

  /** The report for one tariff, if any; the name is checked first. */
  function Check(t: Tariff): (r: Option<ValidationError>)
    ensures r.None? <==> IsValid(t)
    ensures r.Some? && r.value.NoName? <==> t.name == []
    ensures r.Some? && r.value.NoName? ==> r.value.tariff == t
    ensures r.Some? && r.value.NoPrice? ==> r.value.name == t.name && t.price.None?
  {
    if t.name == [] then Some(NoName(t))
    else if t.price.None? then Some(NoPrice(t.name))
    else None
  }

  /** A tariff kept as it is when it is valid. */
  function KeepValid(t: Tariff): Option<Tariff> {
    if IsValid(t) then Some(t) else None
  }

  /** The tariffs `validate_tariffs` keeps, in input order. */
  function Kept(ts: seq<Tariff>): seq<Tariff> {
    Collect(ts, KeepValid)
  }

  /** The reports `validate_tariffs` collects, in input order. */
  function Errors(ts: seq<Tariff>): seq<ValidationError> {
    Collect(ts, Check)
  }

  /** `TariffProcessor.validate_tariffs`. */
  method ValidateTariffs(ts: seq<Tariff>) returns (valid: seq<Tariff>, errors: seq<ValidationError>)
    ensures valid == Kept(ts) && errors == Errors(ts)
  {
    valid := [];
    errors := [];
    for i := 0 to |ts|
      invariant valid == Kept(ts[..i]) && errors == Errors(ts[..i])
    {
      CollectSnoc(ts, KeepValid, i);
      CollectSnoc(ts, Check, i);
      var t := ts[i];
      if t.name == [] {
        errors := errors + [NoName(t)];
        continue;
      }
      if t.price.None? {
        errors := errors + [NoPrice(t.name)];
        continue;
      }
      valid := valid + [t];
    }
    assert ts[..|ts|] == ts;
  }

  /** Every tariff is either kept or reported, never both. */
  lemma {:induction false} ValidateCounts(ts: seq<Tariff>)
    ensures |Kept(ts)| + |Errors(ts)| == |ts|
  {
    if ts != [] {
      ValidateCounts(ts[..|ts| - 1]);
    }
  }

  /** A tariff is kept exactly when it is in the input and valid. */
  lemma KeptMembers(ts: seq<Tariff>, t: Tariff)
    ensures t in Kept(ts) <==> t in ts && IsValid(t)
  {
    CollectMembers(ts, KeepValid, t);
    if t in ts && IsValid(t) {
      var i :| 0 <= i < |ts| && ts[i] == t;
      assert KeepValid(ts[i]) == Some(t);
    }
  }

  /** A report is there exactly when some input tariff produces it. */
  lemma ErrorsMembers(ts: seq<Tariff>, e: ValidationError)
    ensures e in Errors(ts) <==> exists t | t in ts :: Check(t) == Some(e)
  {
    CollectMembers(ts, Check, e);
    if exists t | t in ts :: Check(t) == Some(e) {
      var t :| t in ts && Check(t) == Some(e);
      var i :| 0 <= i < |ts| && ts[i] == t;
      assert Check(ts[i]) == Some(e);
    }
  }

  /** Validation works tariff by tariff: it keeps the order of blocks. */
  lemma ValidateAppend(a: seq<Tariff>, b: seq<Tariff>)
    ensures Kept(a + b) == Kept(a) + Kept(b)
    ensures Errors(a + b) == Errors(a) + Errors(b)
  {
    CollectAppend(a, b, KeepValid);
    CollectAppend(a, b, Check);
  }

  /** Input that is all valid is kept whole, with no report. */
  lemma ValidateAllValid(ts: seq<Tariff>)
    requires forall t | t in ts :: IsValid(t)
    ensures Kept(ts) == ts && Errors(ts) == []
  {
    AllValidKept(ts);
  }

  lemma {:induction false} AllValidKept(ts: seq<Tariff>)
    requires forall i | 0 <= i < |ts| :: IsValid(ts[i])
    ensures Kept(ts) == ts && Errors(ts) == []
  {
    if ts != [] {
      var n := |ts| - 1;
      AllValidKept(ts[..n]);
      assert IsValid(ts[n]);
      SnocSplit(ts);
    }
  }

  // --------------------------------------------------------------- statistics

  /** `Constants.EXPECTED_TARIFFS`: the number of tariffs the page is known
      to list. */
  const ExpectedTariffs: int := 106

  /** The summary `get_statistics` returns. */
  datatype Statistics = Statistics(total: nat, expected: int, difference: int, percentage: real)

  /** The summary for `total` tariffs against `expected`: the percentage is
      total / expected * 100 rounded to a tenth, or 0 when nothing is
      expected. */
  function Summary(total: nat, expected: int): (s: Statistics)
    ensures s.total - s.expected == s.difference
    ensures expected > 0 ==>
      var exact := total as real / expected as real * 100.0;
      exact - 0.05 < s.percentage <= exact + 0.05
    ensures expected <= 0 ==> s.percentage == 0.0
  {
    Statistics(total, expected, total - expected,
      if expected > 0 then Round1(total as real / expected as real * 100.0) else 0.0)
  }

  /** `TariffProcessor.get_statistics`. */
  function GetStatistics(ts: seq<Tariff>): (s: Statistics)
    ensures s.total == |ts| && s.expected == ExpectedTariffs
  {
    Summary(|ts|, ExpectedTariffs)
  }

  /** As many tariffs as expected is 100 percent, with no difference. */
  lemma SummaryComplete(n: nat)
    requires n > 0
    ensures Summary(n, n).percentage == 100.0 && Summary(n, n).difference == 0
  {
    var q := n as real / n as real;
    assert q * n as real == n as real;
    assert q == 1.0;
    Round1Whole(100);
  }

  /** Fewer tariffs than expected never rounds above 100 percent. */
  lemma SummaryAtMostFull(total: nat, expected: int)
    requires 0 < expected && total <= expected
    ensures 0.0 <= Summary(total, expected).percentage <= 100.0
  {
    var q := total as real / expected as real;
    QuotientAtMostOne(total as real, expected as real);
    var x := q * 100.0;
    assert 0.0 <= x <= 100.0;
    Round1AtMost(x, 100);
    Round1NotNegative(x);
  }

  lemma QuotientAtMostOne(n: real, d: real)
    requires 0.0 <= n <= d && 0.0 < d
    ensures 0.0 <= n / d <= 1.0
  {
    assert (n / d) * d == n;
  }

  /** More tariffs never mean a smaller percentage. */
  lemma SummaryMonotone(a: nat, b: nat, expected: int)
    requires a <= b && expected > 0
    ensures Summary(a, expected).percentage <= Summary(b, expected).percentage
  {
    var x := a as real / expected as real * 100.0;
    var y := b as real / expected as real * 100.0;
    assert a as real / expected as real <= b as real / expected as real;
    Round1Monotone(x, y);
  }
}
