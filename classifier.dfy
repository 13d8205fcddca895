/** `flag_anomalies`: labels each row by comparing its value with the
    threshold pair it carries, writing the "Anomaly Flag" column in place. */
module Classifier {
  import opened Wrappers
  import opened Registry
  import opened Readings

  /** The per-row rule: strict comparisons only, high before low, so a value
      equal to a threshold is Normal. */
  function Classify(v: real, t: Thresholds): (l: Label)
    ensures l == HighAnomaly <==> v > t.high
    ensures l == LowAnomaly <==> v <= t.high && v < t.low
    ensures l == Normal <==> v <= t.high && v >= t.low
  {
    if v > t.high then HighAnomaly
    else if v < t.low then LowAnomaly
    else Normal
  }

  /** With an ordered pair (every registry pair is one) the three labels are
      the three intervals below, between and above the thresholds. */
  lemma ClassifyOrdered(v: real, t: Thresholds)
    requires Ordered(t)
    ensures Classify(v, t) == LowAnomaly <==> v < t.low
    ensures Classify(v, t) == Normal <==> t.low <= v <= t.high
  {
  }

  /** The table of cases: 145 against {140, 90} is High, 90 and 100 against
      it are Normal, 59 against {100, 60} is Low. */
  lemma ClassifyExamples()
    ensures Classify(145.0, Thresholds(140.0, 90.0)) == HighAnomaly
    ensures Classify(90.0, Thresholds(140.0, 90.0)) == Normal
    ensures Classify(140.0, Thresholds(140.0, 90.0)) == Normal
    ensures Classify(100.0, Thresholds(140.0, 90.0)) == Normal
    ensures Classify(59.0, Thresholds(100.0, 60.0)) == LowAnomaly
  {
  }

  /** A row with its "Anomaly Flag" set from its own value and thresholds;
      every other column is kept. */
  function Flagged(r: Row): Row {
    r.(flag := Some(Classify(r.value, r.thresholds)))
  }

  /** `flag_anomalies`: the column is first set to "Normal" for every row,
      then each row above its high threshold or below its low one is
      overwritten. An empty table is returned untouched. Row count, order and
      all other columns are unchanged; each row's label depends on that row
      alone. */
  method FlagAnomalies(rows: array<Row>)
    modifies rows
    ensures forall i :: 0 <= i < rows.Length ==> rows[i] == Flagged(old(rows[i]))
  {
    if rows.Length == 0 {
      return;
    }
    forall i | 0 <= i < rows.Length {
      rows[i] := rows[i].(flag := Some(Normal));
    }
    for i := 0 to rows.Length
      invariant forall k :: 0 <= k < i ==> rows[k] == Flagged(old(rows[k]))
      invariant forall k :: i <= k < rows.Length ==> rows[k] == old(rows[k]).(flag := Some(Normal))
    {
      var t := rows[i].thresholds;
      var v := rows[i].value;
      if v > t.high {
        rows[i] := rows[i].(flag := Some(HighAnomaly));
      } else if v < t.low {
        rows[i] := rows[i].(flag := Some(LowAnomaly));
      }
    }
  }
}
