/** The normalised row the pipeline produces, one per accepted observation,
    and the newest-first ordering of a sequence of rows. */
module Readings {
  import opened Wrappers
  import opened Registry

  /** The "Anomaly Flag" column's three values. */
  datatype Label = Normal | HighAnomaly | LowAnomaly

  /** One row of the normalised table: "Date/Time", "Vital Sign Code",
      "Vital Sign Name", "Value", "Unit", "Thresholds" and, once the
      classifier has run, "Anomaly Flag". */
  datatype Row = Row(
    timestamp: int,
    code: string,
    name: string,
    value: real,
    unit: string,
    thresholds: Thresholds,
    flag: Option<Label>)

  /** Rows ordered by non-increasing timestamp (most recent first). */
  ghost predicate NewestFirst(rows: seq<Row>) {
    forall i, j :: 0 <= i < j < |rows| ==> rows[i].timestamp >= rows[j].timestamp
  }

  /** Places `r` among rows already ordered newest-first. */
  function InsertByTime(r: Row, rows: seq<Row>): (out: seq<Row>)
    requires NewestFirst(rows)
    ensures NewestFirst(out)
    ensures multiset(out) == multiset(rows) + multiset{r}
  {
    if rows == [] || r.timestamp >= rows[0].timestamp then
      [r] + rows
    else
      var rest := InsertByTime(r, rows[1..]);
      InsertStep(r, rows, rest);
      [rows[0]] + rest
  }

  /** Keeping the head in front of a row inserted further down preserves the
      order and adds exactly that row. */
  lemma InsertStep(r: Row, rows: seq<Row>, rest: seq<Row>)
    requires rows != [] && r.timestamp < rows[0].timestamp
    requires NewestFirst(rows) && NewestFirst(rest)
    requires multiset(rest) == multiset(rows[1..]) + multiset{r}
    ensures NewestFirst([rows[0]] + rest)
    ensures multiset([rows[0]] + rest) == multiset(rows) + multiset{r}
  {
    assert rows == [rows[0]] + rows[1..];
    forall x | x in rest
      ensures x.timestamp <= rows[0].timestamp
    {
      assert x in multiset(rest);
      assert x == r || x in multiset(rows[1..]);
    }
  }

  /** The sort by "Date/Time", descending. The sort the source calls is not
      stable; this one places ties in some order, and nothing the model proves
      about the normaliser depends on which. */
  function SortNewestFirst(rows: seq<Row>): (out: seq<Row>)
    ensures NewestFirst(out)
    ensures multiset(out) == multiset(rows)
  {
    if rows == [] then []
    else
      assert rows == [rows[0]] + rows[1..];
      InsertByTime(rows[0], SortNewestFirst(rows[1..]))
  }

  /** The "Date/Time" column of a sequence of rows. */
  function Timestamps(rows: seq<Row>): seq<int> {
    seq(|rows|, i requires 0 <= i < |rows| => rows[i].timestamp)
  }

  lemma TimestampsConcat(a: seq<Row>, b: seq<Row>)
    ensures Timestamps(a + b) == Timestamps(a) + Timestamps(b)
  {
  }

  lemma MultisetRemoveAt<T>(b: seq<T>, k: nat)
    requires k < |b|
    ensures multiset(b[..k] + b[k+1..]) == multiset(b) - multiset{b[k]}
  {
    assert b == b[..k] + [b[k]] + b[k+1..];
    assert multiset(b) == multiset(b[..k]) + multiset{b[k]} + multiset(b[k+1..]);
  }

  lemma MultisetTail<T>(s: seq<T>)
    requires s != []
    ensures multiset(s[1..]) == multiset(s) - multiset{s[0]}
  {
    assert s == [s[0]] + s[1..];
  }

  lemma TimestampsRemoveAt(b: seq<Row>, k: nat)
    requires k < |b|
    ensures multiset(Timestamps(b[..k] + b[k+1..])) == multiset(Timestamps(b)) - multiset{b[k].timestamp}
  {
    var t := Timestamps(b);
    assert Timestamps(b[..k] + b[k+1..]) == t[..k] + t[k+1..];
    MultisetRemoveAt(t, k);
  }

  lemma TimestampsTail(a: seq<Row>)
    requires a != []
    ensures multiset(Timestamps(a[1..])) == multiset(Timestamps(a)) - multiset{a[0].timestamp}
  {
    var t := Timestamps(a);
    assert Timestamps(a[1..]) == t[1..];
    MultisetTail(t);
  }

  /** Rows that are permutations of each other carry the same multiset of
      timestamps. */
  lemma {:induction false} TimestampsPermutation(a: seq<Row>, b: seq<Row>)
    requires multiset(a) == multiset(b)
    ensures multiset(Timestamps(a)) == multiset(Timestamps(b))
    decreases |a|
  {
    if a != [] {
      assert a[0] in multiset(b);
      assert a[0] in b;
      var k :| 0 <= k < |b| && b[k] == a[0];
      var rest := b[..k] + b[k+1..];
      MultisetRemoveAt(b, k);
      MultisetTail(a);
      assert multiset(a[1..]) == multiset(rest);
      TimestampsPermutation(a[1..], rest);
      TimestampsRemoveAt(b, k);
      TimestampsTail(a);
      assert multiset(Timestamps(a)) == multiset(Timestamps(a[1..])) + multiset{a[0].timestamp};
    }
  }

  /** An integer sequence ordered non-increasing. */
  predicate NonIncreasing(s: seq<int>) {
    forall i, j :: 0 <= i < j < |s| ==> s[i] >= s[j]
  }

  /** In a non-increasing sequence the head bounds every element. */
  lemma HeadBounds(s: seq<int>, x: int)
    requires NonIncreasing(s)
    requires x in multiset(s)
    ensures s != [] && x <= s[0]
  {
    assert x in s;
  }

  lemma TailNonIncreasing(s: seq<int>)
    requires s != [] && NonIncreasing(s)
    ensures NonIncreasing(s[1..])
  {
  }

  /** Two non-increasing integer sequences with the same elements are equal. */
  lemma {:induction false} NonIncreasingUnique(s: seq<int>, t: seq<int>)
    requires multiset(s) == multiset(t)
    requires NonIncreasing(s) && NonIncreasing(t)
    ensures s == t
  {
    assert |t| == |s| by {
      assert |multiset(t)| == |t| && |multiset(s)| == |s|;
    }
    if s != [] {
      assert s[0] in multiset(t);
      HeadBounds(t, s[0]);
      assert t[0] in multiset(s);
      HeadBounds(s, t[0]);
      assert s[0] == t[0];
      MultisetTail(s);
      MultisetTail(t);
      assert multiset(s[1..]) == multiset(t[1..]);
      TailNonIncreasing(s);
      TailNonIncreasing(t);
      NonIncreasingUnique(s[1..], t[1..]);
      assert s == [s[0]] + s[1..] && t == [t[0]] + t[1..];
    }
  }

  lemma NewestFirstNonIncreasing(rows: seq<Row>)
    requires NewestFirst(rows)
    ensures NonIncreasing(Timestamps(rows))
  {
  }

  /** Any two newest-first orderings of the same rows agree on the
      "Date/Time" column: rows with equal timestamps may trade places, but the
      column itself does not depend on how the sort breaks ties. */
  lemma NewestFirstTimestampsDetermined(a: seq<Row>, b: seq<Row>)
    requires multiset(a) == multiset(b)
    requires NewestFirst(a) && NewestFirst(b)
    ensures Timestamps(a) == Timestamps(b)
  {
    TimestampsPermutation(a, b);
    NewestFirstNonIncreasing(a);
    NewestFirstNonIncreasing(b);
    NonIncreasingUnique(Timestamps(a), Timestamps(b));
  }
}
