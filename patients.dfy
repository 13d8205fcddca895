/** `fetch_valid_patient_ids`, id extraction and selection only: the search
    result arrives as a parameter (None when the search raised), and so does
    the remote result of each per-patient search. */
module Patients {
  import opened Wrappers
  import opened Fhir
  import opened Fetcher

  /** The text a subject reference must contain to name a patient. */
  const PatientMarker: string := "Patient/"

  /** `pat` occurs in `s` starting at offset `i`. */
  ghost predicate OccursAt(s: string, pat: string, i: int) {
    0 <= i && i + |pat| <= |s| && s[i..i + |pat|] == pat
  }

  /** `pat in s` on strings. */
  function Contains(s: string, pat: string): (b: bool)
    ensures b <==> exists i :: OccursAt(s, pat, i)
  {
    if |s| < |pat| then false
    else if s[..|pat|] == pat then
      assert OccursAt(s, pat, 0);
      true
    else
      var b := Contains(s[1..], pat);
      assert forall i :: OccursAt(s[1..], pat, i) <==> OccursAt(s, pat, i + 1) by {
        forall i ensures OccursAt(s[1..], pat, i) <==> OccursAt(s, pat, i + 1) {
          if 0 <= i && i + |pat| <= |s| - 1 {
            assert s[1..][i..i + |pat|] == s[i + 1..i + 1 + |pat|];
          }
        }
      }
      assert !OccursAt(s, pat, 0);
      assert forall i :: OccursAt(s, pat, i) ==> OccursAt(s[1..], pat, i - 1);
      b
  }

  /** `s.split("/")[-1]`: the longest suffix of `s` holding no '/'. */
  function LastSegment(s: string): (r: string)
    ensures |r| <= |s| && s[|s| - |r|..] == r
    ensures forall i :: 0 <= i < |r| ==> r[i] != '/'
    ensures |r| < |s| ==> s[|s| - |r| - 1] == '/'
  {
    if s == [] then []
    else if s[|s| - 1] == '/' then []
    else LastSegment(s[..|s| - 1]) + [s[|s| - 1]]
  }

  /** A versioned reference yields its version number, not the patient id. */
  lemma VersionedReferenceYieldsVersion()
    ensures LastSegment("Patient/p1/_history/2") == "2"
  {
  }

  /** The subject reference of a resource, None when the subject or its
      reference is missing. */
  function SubjectReference(r: Resource): Option<string> {
    match r
    case ObservationResource(o) => o.subject
    case OtherResource(subject) => subject
  }

  /** The id one search entry contributes to `raw_ids`. */
  function CandidateId(e: Entry): Option<string> {
    if e.resource.None? then None
    else match SubjectReference(e.resource.value)
      case None => None
      case Some(ref) =>
        if ref != "" && Contains(ref, PatientMarker) then Some(LastSegment(ref)) else None
  }

  /** `raw_ids`: the set of candidate ids of a bundle's entries. */
  function RawIds(es: seq<Entry>): (ids: set<string>)
    ensures forall id :: id in ids <==> exists i :: 0 <= i < |es| && CandidateId(es[i]) == Some(id)
  {
    if es == [] then {}
    else
      var init := RawIds(es[..|es| - 1]);
      assert forall i :: 0 <= i < |es| - 1 ==> es[..|es| - 1][i] == es[i];
      match CandidateId(es[|es| - 1])
      case None => init
      case Some(id) => init + {id}
  }

  lemma RawIdsStep(es: seq<Entry>, i: int)
    requires 0 <= i < |es|
    ensures RawIds(es[..i + 1]) == RawIds(es[..i]) + match CandidateId(es[i]) case None => {} case Some(id) => {id}
  {
    assert es[..i + 1][..i] == es[..i];
  }

  /** A patient id whose own fetch returns at least one observation. */
  ghost predicate Usable(id: string, remoteFor: string -> Option<seq<Entry>>, synthetic: seq<Observation>,
                         parse: InstantParser) {
    |FetchPolicy(id, remoteFor(id), synthetic, parse)| > 0
  }

  /** Python's `<` on str: lexicographic by code point, a proper prefix
      first. */
  predicate Below(a: string, b: string) {
    if a == [] then b != []
    else if b == [] then false
    else if a[0] != b[0] then a[0] < b[0]
    else Below(a[1..], b[1..])
  }

  lemma {:induction false} BelowIrreflexive(a: string)
    ensures !Below(a, a)
  {
    if a != [] {
      BelowIrreflexive(a[1..]);
    }
  }

  lemma {:induction false} BelowTransitive(a: string, b: string, c: string)
    requires Below(a, b) && Below(b, c)
    ensures Below(a, c)
  {
    if a != [] && a[0] == b[0] && b[0] == c[0] {
      BelowTransitive(a[1..], b[1..], c[1..]);
    }
  }

  lemma {:induction false} BelowTotal(a: string, b: string)
    ensures a == b || Below(a, b) || Below(b, a)
  {
    if a != [] && b != [] && a[0] == b[0] {
      BelowTotal(a[1..], b[1..]);
      if a[1..] == b[1..] {
        assert a == [a[0]] + a[1..] && b == [b[0]] + b[1..];
      }
    }
  }

  /** `!Below(b, a)`, that is `a <= b`, is transitive. */
  lemma AtMostTransitive(a: string, b: string, c: string)
    requires !Below(b, a) && !Below(c, b)
    ensures !Below(c, a)
  {
    BelowTotal(a, b);
    if Below(c, a) {
      if a == b {
      } else {
        BelowTransitive(c, a, b);
      }
    }
  }

  /** `sorted` order: no later element is Below an earlier one. */
  ghost predicate Ascending(s: seq<string>) {
    forall i, j :: 0 <= i < j < |s| ==> !Below(s[j], s[i])
  }

  ghost predicate StrictlyAscending(s: seq<string>) {
    forall i, j :: 0 <= i < j < |s| ==> Below(s[i], s[j])
  }

  ghost predicate NoDuplicates(s: seq<string>) {
    forall i, j :: 0 <= i < j < |s| ==> s[i] != s[j]
  }

  /** Places `x` in an ascending sequence. */
  function InsertId(x: string, s: seq<string>): (t: seq<string>)
    requires Ascending(s)
    ensures Ascending(t)
    ensures multiset(t) == multiset(s) + multiset{x}
  {
    if s == [] then [x]
    else if !Below(s[0], x) then
      assert forall k :: 0 <= k < |s| ==> !Below(s[k], x) by {
        forall k | 0 < k < |s| ensures !Below(s[k], x) {
          AtMostTransitive(x, s[0], s[k]);
        }
      }
      [x] + s
    else
      var rest := InsertId(x, s[1..]);
      assert s == [s[0]] + s[1..];
      assert !Below(x, s[0]) by {
        if Below(x, s[0]) {
          BelowTransitive(x, s[0], x);
          BelowIrreflexive(x);
        }
      }
      assert forall y :: y in rest ==> !Below(y, s[0]) by {
        forall y | y in rest ensures !Below(y, s[0]) {
          assert y in multiset(rest);
          assert y == x || y in multiset(s[1..]);
        }
      }
      [s[0]] + rest
  }

  /** `sorted(valid_ids)`. */
  function SortIds(s: seq<string>): (t: seq<string>)
    ensures Ascending(t)
    ensures multiset(t) == multiset(s)
  {
    if s == [] then []
    else
      assert s == [s[0]] + s[1..];
      InsertId(s[0], SortIds(s[1..]))
  }

  lemma {:induction false} NoDuplicatesCount(s: seq<string>, x: string)
    requires NoDuplicates(s)
    ensures multiset(s)[x] <= 1
  {
    if s != [] {
      assert s == [s[0]] + s[1..];
      NoDuplicatesCount(s[1..], x);
      if x == s[0] {
        assert x !in s[1..];
      }
    }
  }

  /** Sorting keeps a duplicate-free list duplicate-free, and then `sorted`
      order is strict. */
  lemma SortedDistinctIsStrict(s: seq<string>, t: seq<string>)
    requires NoDuplicates(s) && multiset(t) == multiset(s) && Ascending(t)
    ensures StrictlyAscending(t)
  {
    forall i, j | 0 <= i < j < |t| ensures Below(t[i], t[j]) {
      if t[i] == t[j] {
        assert t == t[..j] + [t[j]] + t[j + 1..];
        assert t[i] in t[..j];
        assert multiset(t)[t[i]] >= 2;
        NoDuplicatesCount(s, t[i]);
      }
      BelowTotal(t[i], t[j]);
    }
  }

  /** The first loop of `fetch_valid_patient_ids`, building `raw_ids`. */
  method CollectRawIds(entries: seq<Entry>) returns (rawIds: set<string>)
    ensures rawIds == RawIds(entries)
  {
    rawIds := {};
    for i := 0 to |entries|
      invariant rawIds == RawIds(entries[..i])
    {
      RawIdsStep(entries, i);
      var e := entries[i];
      if e.resource.Some? {
        var ref := SubjectReference(e.resource.value);
        if ref.Some? && ref.value != "" && Contains(ref.value, PatientMarker) {
          rawIds := rawIds + {LastSegment(ref.value)};
        }
      }
    }
    assert entries[..|entries|] == entries;
  }

  /** The second loop of `fetch_valid_patient_ids`, building `valid_ids`
      from `raw_ids` in whatever order the set yields its elements. */
  method KeepUsable(rawIds: set<string>, remoteFor: string -> Option<seq<Entry>>,
                    synthetic: seq<Observation>, parse: InstantParser) returns (validIds: seq<string>)
    ensures NoDuplicates(validIds)
    ensures forall id :: id in validIds <==> id in rawIds && Usable(id, remoteFor, synthetic, parse)
  {
    validIds := [];
    var remaining := rawIds;
    while remaining != {}
      invariant remaining <= rawIds
      invariant NoDuplicates(validIds)
      invariant forall id :: id in validIds ==> id !in remaining
      invariant forall id :: id in validIds <==> id in rawIds - remaining && Usable(id, remoteFor, synthetic, parse)
      decreases remaining
    {
      var pid :| pid in remaining;
      var obs := FetchVitalsData(pid, remoteFor(pid), synthetic, parse);
      if |obs| > 0 {
        validIds := validIds + [pid];
      }
      remaining := remaining - {pid};
    }
  }

  /** `fetch_valid_patient_ids`: the patient ids named by subject references
      in the search bundle whose own fetch returns at least one observation,
      sorted; the sentinel alone when the search raises or no id is kept. */
  method FetchValidPatientIds(search: Option<seq<Entry>>, remoteFor: string -> Option<seq<Entry>>,
                              synthetic: seq<Observation>, parse: InstantParser) returns (ids: seq<string>)
    ensures search.None? ==> ids == [Sentinel]
    ensures search.Some? && (forall id :: id in RawIds(search.value) ==> !Usable(id, remoteFor, synthetic, parse))
            ==> ids == [Sentinel]
    ensures search.Some? && (exists id :: id in RawIds(search.value) && Usable(id, remoteFor, synthetic, parse))
            ==> && StrictlyAscending(ids)
                && forall id :: id in ids <==> id in RawIds(search.value) && Usable(id, remoteFor, synthetic, parse)
  {
    if search.None? {
      return [Sentinel];  // the search raised
    }
    var rawIds := CollectRawIds(search.value);
    var validIds := KeepUsable(rawIds, remoteFor, synthetic, parse);
    if |validIds| == 0 {
      return [Sentinel];
    }
    assert validIds[0] in validIds;
    ids := SortIds(validIds);
    SortedDistinctIsStrict(validIds, ids);
    forall id ensures id in ids <==> id in validIds {
      assert id in ids <==> id in multiset(ids);
      assert id in validIds <==> id in multiset(validIds);
    }
  }
}
