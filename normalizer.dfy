/** `parse_and_normalize_vitals`: turns a batch of Observation resources into
    normalised rows, skipping every observation it cannot use, then orders
    the rows newest-first. */
module Normalizer {
  import opened Wrappers
  import opened Registry
  import opened Fhir
  import opened Readings

  /** How the scan of a component list ends: `comp.code.coding[0]` raised,
      no component matched, or the matching component's quantity. */
  datatype Scan = Raised | NoMatch | Matched(quantity: Quantity)

  /** A component on which reading `coding[0]` raises. */
  predicate Malformed(c: Component) {
    |c.codings| == 0
  }

  /** A component the scan takes its value from: its first code is `code`
      and it carries a valueQuantity. */
  predicate Accepts(c: Component, code: string) {
    |c.codings| > 0 && c.codings[0] == Some(code) && c.valueQuantity.Some?
  }

  /** A component the scan steps over. */
  predicate Passes(c: Component, code: string) {
    !Malformed(c) && !Accepts(c, code)
  }

  /** The scan stops at index `k`: every component before it is stepped over
      and component `k` is not. */
  ghost predicate StopsAt(cs: seq<Component>, code: string, k: int) {
    0 <= k < |cs| && !Passes(cs[k], code) && forall j :: 0 <= j < k ==> Passes(cs[j], code)
  }

  /** The scan of `obs.component` for the observation's own code. */
  function ScanComponents(cs: seq<Component>, code: string): (s: Scan)
    ensures s.NoMatch? <==> forall k :: 0 <= k < |cs| ==> Passes(cs[k], code)
    ensures s.Raised? <==> exists k :: StopsAt(cs, code, k) && Malformed(cs[k])
    ensures s.Matched? ==> exists k :: StopsAt(cs, code, k) && Accepts(cs[k], code)
                                       && cs[k].valueQuantity == Some(s.quantity)
    ensures forall k :: StopsAt(cs, code, k) && Accepts(cs[k], code) ==> s == Matched(cs[k].valueQuantity.value)
  {
    if cs == [] then NoMatch
    else if |cs[0].codings| == 0 then
      assert StopsAt(cs, code, 0);
      Raised
    else if cs[0].codings[0] == Some(code) && cs[0].valueQuantity.Some? then
      assert StopsAt(cs, code, 0);
      Matched(cs[0].valueQuantity.value)
    else
      var s := ScanComponents(cs[1..], code);
      assert forall k :: StopsAt(cs[1..], code, k) <==> StopsAt(cs, code, k + 1);
      assert s.Matched? ==> exists k :: StopsAt(cs, code, k) && Accepts(cs[k], code)
                                        && cs[k].valueQuantity == Some(s.quantity) by {
        if s.Matched? {
          var k :| StopsAt(cs[1..], code, k) && Accepts(cs[1..][k], code)
                   && cs[1..][k].valueQuantity == Some(s.quantity);
          assert StopsAt(cs, code, k + 1);
        }
      }
      assert forall k :: StopsAt(cs, code, k) ==> k > 0;
      assert forall k :: 0 < k < |cs| ==> cs[k] == cs[1..][k - 1];
      s
  }

  /** The inner `for comp in obs.component` loop, which breaks at the first
      component carrying the observation's code and a valueQuantity. */
  method FindComponentQuantity(cs: seq<Component>, code: string) returns (s: Scan)
    ensures s == ScanComponents(cs, code)
  {
    for i := 0 to |cs|
      invariant forall j :: 0 <= j < i ==> Passes(cs[j], code)
    {
      if |cs[i].codings| == 0 {
        assert StopsAt(cs, code, i);
        return Raised;
      }
      if cs[i].codings[0] == Some(code) && cs[i].valueQuantity.Some? {
        assert StopsAt(cs, code, i);
        return Matched(cs[i].valueQuantity.value);
      }
    }
    return NoMatch;
  }

  /** Where the value and unit of an observation of registered `code` come
      from: a present valueQuantity is used as it is (even when its value is
      None), otherwise the component list is scanned. */
  function ChosenQuantity(o: Observation, code: string): Scan {
    if o.valueQuantity.Some? then Matched(o.valueQuantity.value)
    else ScanComponents(o.components, code)
  }

  /** `unit or vital_info["unit"]`: the reported unit when it is present and
      non-empty, the canonical unit otherwise. */
  function ResolvedUnit(reported: Option<string>, canonical: string): string {
    if reported.Some? && reported.value != "" then reported.value else canonical
  }

  /** `q` is the quantity the source reads the value and unit from: the
      observation's own valueQuantity when present, else that of the component
      where the scan for `code` stops with a match. */
  ghost predicate SuppliesQuantity(o: Observation, code: string, q: Quantity) {
    match o.valueQuantity
    case Some(direct) => q == direct
    case None =>
      exists k :: StopsAt(o.components, code, k) && Accepts(o.components[k], code)
                  && o.components[k].valueQuantity == Some(q)
  }

  /** The body of the per-observation `try` block: the row one observation
      contributes, or None when the observation is skipped (a `continue`, or
      an exception caught by the bare `except`). */
  function NormalizeOne(o: Observation, parse: InstantParser): Option<Row> {
    match PrimaryCode(o.codings)
    case None => None
    case Some(code) =>
      if code !in VitalSigns then None
      else
        var d := VitalSigns[code];
        match ChosenQuantity(o, code)
        case Raised => None
        case NoMatch => None
        case Matched(q) =>
          if q.value.None? || o.effectiveDateTime.None? then None
          else match parse(o.effectiveDateTime.value)
            case None => None
            case Some(t) =>
              Some(Row(t, code, d.name, q.value.value, ResolvedUnit(q.unit, d.unit), d.thresholds, None))
  }

  /** Every row is built from a registered first code, the registry's name
      and thresholds copied unchanged, no flag yet, the instant parsed from
      the observation's own effectiveDateTime, and the value of the quantity
      the source reads, with its unit or else the canonical one. */
  lemma NormalizeOneSound(o: Observation, parse: InstantParser)
    ensures var r := NormalizeOne(o, parse);
      r.Some? ==>
        && PrimaryCode(o.codings) == Some(r.value.code)
        && r.value.code in VitalSigns
        && r.value.name == VitalSigns[r.value.code].name
        && r.value.thresholds == VitalSigns[r.value.code].thresholds
        && r.value.flag.None?
        && o.effectiveDateTime.Some? && parse(o.effectiveDateTime.value) == Some(r.value.timestamp)
        && exists q :: SuppliesQuantity(o, r.value.code, q) && q.value == Some(r.value.value)
                       && r.value.unit == ResolvedUnit(q.unit, VitalSigns[r.value.code].unit)
  {
    var r := NormalizeOne(o, parse);
    if r.Some? {
      var code := r.value.code;
      var q := ChosenQuantity(o, code).quantity;
      assert SuppliesQuantity(o, code, q);
    }
  }

  /** Conversely, an observation with a registered first code, a supplied
      value (0 included: only None drops it) and a parsable effectiveDateTime
      yields exactly the row built from them. */
  lemma NormalizeOneComplete(o: Observation, parse: InstantParser, code: string, q: Quantity, v: real, text: string, t: int)
    requires PrimaryCode(o.codings) == Some(code) && code in VitalSigns
    requires SuppliesQuantity(o, code, q) && q.value == Some(v)
    requires o.effectiveDateTime == Some(text) && parse(text) == Some(t)
    ensures NormalizeOne(o, parse)
            == Some(Row(t, code, VitalSigns[code].name, v, ResolvedUnit(q.unit, VitalSigns[code].unit),
                        VitalSigns[code].thresholds, None))
  {
    if o.valueQuantity.None? {
      var k :| StopsAt(o.components, code, k) && Accepts(o.components[k], code)
               && o.components[k].valueQuantity == Some(q);
      assert ScanComponents(o.components, code) == Matched(q);
    }
  }

  /** The skip rules: an observation is dropped when its present
      valueQuantity has no value (the components are then not searched), when
      the component scan reaches a component without codings before any
      match, and when its effectiveDateTime is missing or does not parse. */
  lemma NormalizeOneSkips(o: Observation, parse: InstantParser, code: string)
    requires PrimaryCode(o.codings) == Some(code)
    ensures o.valueQuantity.Some? && o.valueQuantity.value.value.None? ==> NormalizeOne(o, parse).None?
    ensures o.valueQuantity.None? && (exists k :: StopsAt(o.components, code, k) && Malformed(o.components[k]))
            ==> NormalizeOne(o, parse).None?
    ensures o.effectiveDateTime.None? ==> NormalizeOne(o, parse).None?
    ensures o.effectiveDateTime.Some? && parse(o.effectiveDateTime.value).None? ==> NormalizeOne(o, parse).None?
  {
  }

  /** Row `r` is what one of the observations `os` yields. */
  ghost predicate YieldedBy(os: seq<Observation>, parse: InstantParser, r: Row) {
    exists i :: 0 <= i < |os| && NormalizeOne(os[i], parse) == Some(r)
  }

  /** The rows the loop appends to `data`, in input order: one per
      observation that is not skipped. */
  function Collected(os: seq<Observation>, parse: InstantParser): (rows: seq<Row>)
    ensures |rows| <= |os|
    ensures forall r :: r in rows ==> YieldedBy(os, parse, r)
  {
    if os == [] then []
    else
      var init := Collected(os[..|os| - 1], parse);
      assert forall i :: 0 <= i < |os| - 1 ==> os[..|os| - 1][i] == os[i];
      match NormalizeOne(os[|os| - 1], parse)
      case None => init
      case Some(r) => init + [r]
  }

  lemma CollectedStep(os: seq<Observation>, parse: InstantParser, i: int)
    requires 0 <= i < |os|
    ensures Collected(os[..i + 1], parse)
            == Collected(os[..i], parse) + match NormalizeOne(os[i], parse) case None => [] case Some(r) => [r]
  {
    assert os[..i + 1][..i] == os[..i];
  }

  /** Every row an observation yields is collected. */
  lemma {:induction false} CollectedComplete(os: seq<Observation>, parse: InstantParser, i: int)
    requires 0 <= i < |os| && NormalizeOne(os[i], parse).Some?
    ensures NormalizeOne(os[i], parse).value in Collected(os, parse)
  {
    if i < |os| - 1 {
      assert os[..|os| - 1][i] == os[i];
      CollectedComplete(os[..|os| - 1], parse, i);
    }
  }

  /** Skipping never aborts the pass: the rows of a batch are the rows of its
      parts, each part normalised on its own. */
  lemma {:induction false} CollectedConcat(a: seq<Observation>, b: seq<Observation>, parse: InstantParser)
    ensures Collected(a + b, parse) == Collected(a, parse) + Collected(b, parse)
    decreases |b|
  {
    if b != [] {
      var ab := a + b;
      assert ab[..|ab| - 1] == a + b[..|b| - 1];
      assert ab[|ab| - 1] == b[|b| - 1];
      CollectedConcat(a, b[..|b| - 1], parse);
    } else {
      assert a + b == a;
    }
  }

  /** The per-observation body of the loop: each early `return None` is a
      `continue` of the source, or an exception its bare `except` swallows. */
  method NormalizeObservation(obs: Observation, parse: InstantParser) returns (row: Option<Row>)
    ensures row == NormalizeOne(obs, parse)
  {
    if |obs.codings| == 0 {
      return None;  // coding[0] raises
    }
    var code := obs.codings[0];
    if code.None? || code.value !in VitalSigns {
      return None;
    }
    var info := VitalSigns[code.value];
    var found: Scan;
    if obs.valueQuantity.Some? {
      found := Matched(obs.valueQuantity.value);
    } else if |obs.components| > 0 {
      found := FindComponentQuantity(obs.components, code.value);
    } else {
      found := NoMatch;
    }
    if found.Raised? {
      return None;  // a component's coding[0] raised
    }
    if found.NoMatch? || found.quantity.value.None? {
      return None;
    }
    if obs.effectiveDateTime.None? {
      return None;
    }
    var instant := parse(obs.effectiveDateTime.value);
    if instant.None? {
      return None;  // fromisoformat raised
    }
    var q := found.quantity;
    row := Some(Row(instant.value, code.value, info.name, q.value.value,
                    ResolvedUnit(q.unit, info.unit), info.thresholds, None));
  }

  /** `parse_and_normalize_vitals`: the loop appending one row per usable
      observation to `data`, then the sort by "Date/Time", descending. */
  method ParseAndNormalizeVitals(observations: seq<Observation>, parse: InstantParser) returns (rows: seq<Row>)
    ensures multiset(rows) == multiset(Collected(observations, parse))
    ensures NewestFirst(rows)
    ensures forall r :: r in rows ==> YieldedBy(observations, parse, r)
    ensures forall i :: 0 <= i < |observations| && NormalizeOne(observations[i], parse).Some?
              ==> NormalizeOne(observations[i], parse).value in rows
    ensures (forall i :: 0 <= i < |observations| ==> NormalizeOne(observations[i], parse).None?) ==> rows == []
  {
    var data: seq<Row> := [];
    for i := 0 to |observations|
      invariant data == Collected(observations[..i], parse)
    {
      CollectedStep(observations, parse, i);
      var row := NormalizeObservation(observations[i], parse);
      if row.Some? {
        data := data + [row.value];
      }
    }
    assert observations[..|observations|] == observations;
    rows := SortNewestFirst(data);
    PermutationSound(observations, parse, rows);
    PermutationComplete(observations, parse, rows);
    if rows != [] {
      assert YieldedBy(observations, parse, rows[0]);
    }
  }

  /** Any reordering of the collected rows holds only rows that some
      observation yields. */
  lemma PermutationSound(os: seq<Observation>, parse: InstantParser, rows: seq<Row>)
    requires multiset(rows) == multiset(Collected(os, parse))
    ensures forall r :: r in rows ==> YieldedBy(os, parse, r)
  {
    forall r | r in rows
      ensures YieldedBy(os, parse, r)
    {
      assert r in multiset(rows);
    }
  }

  /** Any reordering of the collected rows holds every row an observation
      yields. */
  lemma PermutationComplete(os: seq<Observation>, parse: InstantParser, rows: seq<Row>)
    requires multiset(rows) == multiset(Collected(os, parse))
    ensures forall i :: 0 <= i < |os| && NormalizeOne(os[i], parse).Some? ==> NormalizeOne(os[i], parse).value in rows
  {
    forall i | 0 <= i < |os| && NormalizeOne(os[i], parse).Some?
      ensures NormalizeOne(os[i], parse).value in rows
    {
      CollectedComplete(os, parse, i);
      SharedMember(NormalizeOne(os[i], parse).value, Collected(os, parse), rows);
    }
  }

  lemma SharedMember<T>(x: T, a: seq<T>, b: seq<T>)
    requires x in a && multiset(a) == multiset(b)
    ensures x in b
  {
    assert x in multiset(a);
  }

  /** Registry totality over a whole output: whatever the input, every row
      carries a registered code with that code's name and thresholds, and an
      instant parsed from its observation's effectiveDateTime. */
  lemma RowsAreRegistered(os: seq<Observation>, parse: InstantParser, rows: seq<Row>)
    requires forall r :: r in rows ==> YieldedBy(os, parse, r)
    ensures forall r :: r in rows ==> && r.code in VitalSigns
                                       && r.name == VitalSigns[r.code].name
                                       && r.thresholds == VitalSigns[r.code].thresholds
    ensures forall r :: r in rows ==> exists i :: 0 <= i < |os| && os[i].effectiveDateTime.Some?
                                                 && parse(os[i].effectiveDateTime.value) == Some(r.timestamp)
  {
    forall r | r in rows
      ensures && r.code in VitalSigns
              && r.name == VitalSigns[r.code].name
              && r.thresholds == VitalSigns[r.code].thresholds
      ensures exists i :: 0 <= i < |os| && os[i].effectiveDateTime.Some?
                          && parse(os[i].effectiveDateTime.value) == Some(r.timestamp)
    {
      var i :| 0 <= i < |os| && NormalizeOne(os[i], parse) == Some(r);
      NormalizeOneSound(os[i], parse);
    }
  }

  /** A blood-pressure panel (code 85354-9, systolic 145 and diastolic 92 as
      components) and a heart-rate reading of 110/min at the same instant: the
      panel's own code is not registered, so the batch yields the heart-rate
      row alone. */
  lemma PanelScenario(parse: InstantParser, t: int)
    requires parse("2025-10-01T10:00:00Z") == Some(t)
    ensures var when := Some("2025-10-01T10:00:00Z");
            var panel := Observation([Some("85354-9")], None,
                                     [Component([Some("8480-6")], Some(Quantity(Some(145.0), Some("mmHg")))),
                                      Component([Some("8462-4")], Some(Quantity(Some(92.0), Some("mmHg"))))],
                                     when, None);
            var heartRate := Observation([Some("8867-4")], Some(Quantity(Some(110.0), Some("/min"))), [], when, None);
            Collected([panel, heartRate], parse)
            == [Row(t, "8867-4", "Heart Rate", 110.0, "/min", Thresholds(100.0, 60.0), None)]
  {
    var when := Some("2025-10-01T10:00:00Z");
    var panel := Observation([Some("85354-9")], None,
                             [Component([Some("8480-6")], Some(Quantity(Some(145.0), Some("mmHg")))),
                              Component([Some("8462-4")], Some(Quantity(Some(92.0), Some("mmHg"))))],
                             when, None);
    var heartRate := Observation([Some("8867-4")], Some(Quantity(Some(110.0), Some("/min"))), [], when, None);
    assert "85354-9" !in VitalSigns;
    assert NormalizeOne(panel, parse) == None;
    NormalizeOneComplete(heartRate, parse, "8867-4", heartRate.valueQuantity.value, 110.0, when.value, t);
    assert [panel, heartRate][..1] == [panel];
    assert [panel][..0] == [];
  }

  /** A panel whose own code is systolic blood pressure, listing diastolic 92
      before systolic 145, yields one row: the value of the component that
      carries the observation's own code. */
  lemma CodedPanelScenario(parse: InstantParser, t: int)
    requires parse("2025-10-01T10:00:00Z") == Some(t)
    ensures var systolic := Component([Some("8480-6")], Some(Quantity(Some(145.0), Some("mmHg"))));
            var diastolic := Component([Some("8462-4")], Some(Quantity(Some(92.0), Some("mmHg"))));
            var panel := Observation([Some("8480-6")], None, [diastolic, systolic], Some("2025-10-01T10:00:00Z"), None);
            NormalizeOne(panel, parse)
            == Some(Row(t, "8480-6", "Systolic Blood Pressure", 145.0, "mmHg", Thresholds(140.0, 90.0), None))
  {
    var systolic := Component([Some("8480-6")], Some(Quantity(Some(145.0), Some("mmHg"))));
    var diastolic := Component([Some("8462-4")], Some(Quantity(Some(92.0), Some("mmHg"))));
    var panel := Observation([Some("8480-6")], None, [diastolic, systolic], Some("2025-10-01T10:00:00Z"), None);
    assert StopsAt(panel.components, "8480-6", 1);
    NormalizeOneComplete(panel, parse, "8480-6", systolic.valueQuantity.value, 145.0, "2025-10-01T10:00:00Z", t);
  }
}
