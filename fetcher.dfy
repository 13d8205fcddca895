/** `fetch_vitals_data`, the fallback policy only: the remote search result
    arrives as a parameter (None when the search raised) and the synthetic
    bundle is a parameter standing for what `load_synthetic_data` returns. */
module Fetcher {
  import opened Wrappers
  import opened Fhir

  /** The reserved patient id that selects the synthetic bundle. */
  const Sentinel: string := "synth-pat-1"

  /** An entry whose resource is an Observation with an effectiveDateTime
      that is present but does not parse. */
  predicate MalformedDate(e: Entry, parse: InstantParser) {
    && e.resource.Some?
    && e.resource.value.ObservationResource?
    && e.resource.value.obs.effectiveDateTime.Some?
    && parse(e.resource.value.obs.effectiveDateTime.value).None?
  }

  ghost predicate HasMalformedDate(es: seq<Entry>, parse: InstantParser) {
    exists i :: 0 <= i < |es| && MalformedDate(es[i], parse)
  }

  /** The Observation resources of a bundle's entries, in bundle order. */
  function ObservationsOf(es: seq<Entry>): seq<Observation> {
    if es == [] then [] else Kept(es[0]) + ObservationsOf(es[1..])
  }

  /** The observation one entry contributes: its resource when that is an
      Observation. */
  function Kept(e: Entry): seq<Observation> {
    match e.resource
    case Some(ObservationResource(o)) => [o]
    case _ => []
  }

  /** An observation is kept exactly when some entry holds it. */
  lemma {:induction false} ObservationsOfMembership(es: seq<Entry>, o: Observation)
    ensures o in ObservationsOf(es) <==> exists i :: 0 <= i < |es| && es[i].resource == Some(ObservationResource(o))
  {
    if es != [] {
      ObservationsOfMembership(es[1..], o);
      assert forall i :: 0 < i < |es| ==> es[i] == es[1..][i - 1];
      if exists i :: 0 <= i < |es| && es[i].resource == Some(ObservationResource(o)) {
        var i :| 0 <= i < |es| && es[i].resource == Some(ObservationResource(o));
        if i > 0 {
          assert es[1..][i - 1].resource == Some(ObservationResource(o));
        }
      }
    }
  }

  /** Keeping Observations commutes with splitting the bundle, so the kept
      observations stay in bundle order. */
  lemma {:induction false} ObservationsOfConcat(a: seq<Entry>, b: seq<Entry>)
    ensures ObservationsOf(a + b) == ObservationsOf(a) + ObservationsOf(b)
  {
    if a == [] {
      assert a + b == b;
    } else {
      assert (a + b)[1..] == a[1..] + b;
      ObservationsOfConcat(a[1..], b);
    }
  }

  /** The loop over the remote bundle, with its early return: None as soon
      as an Observation's date fails to parse, else the Observations. */
  function ScanBundle(es: seq<Entry>, parse: InstantParser): (r: Option<seq<Observation>>)
    ensures r.None? <==> HasMalformedDate(es, parse)
    ensures r.Some? ==> r.value == ObservationsOf(es)
  {
    if es == [] then Some([])
    else if MalformedDate(es[0], parse) then
      assert MalformedDate(es[0], parse);
      None
    else
      assert forall i :: 0 < i < |es| ==> es[i] == es[1..][i - 1];
      assert HasMalformedDate(es, parse) ==> HasMalformedDate(es[1..], parse) by {
        if HasMalformedDate(es, parse) {
          var i :| 0 <= i < |es| && MalformedDate(es[i], parse);
          assert MalformedDate(es[1..][i - 1], parse);
        }
      }
      match ScanBundle(es[1..], parse)
      case None => None
      case Some(rest) => Some(Kept(es[0]) + rest)
  }

  /** What `fetch_vitals_data` returns. */
  function FetchPolicy(patientId: string, remote: Option<seq<Entry>>, synthetic: seq<Observation>,
                       parse: InstantParser): (obs: seq<Observation>)
    ensures patientId == Sentinel ==> obs == synthetic
    ensures patientId != Sentinel && remote.None? ==> obs == synthetic
    ensures patientId != Sentinel && remote.Some? && HasMalformedDate(remote.value, parse) ==> obs == synthetic
    ensures patientId != Sentinel && remote.Some? && !HasMalformedDate(remote.value, parse)
            ==> obs == ObservationsOf(remote.value)
  {
    if patientId == Sentinel then synthetic
    else match remote
      case None => synthetic
      case Some(es) => ScanBundle(es, parse).GetOr(synthetic)
  }

  /** `fetch_vitals_data`. `validate_only` is not a parameter: both of its
      branches return the same list. */
  method FetchVitalsData(patientId: string, remote: Option<seq<Entry>>, synthetic: seq<Observation>,
                         parse: InstantParser) returns (obs: seq<Observation>)
    ensures obs == FetchPolicy(patientId, remote, synthetic, parse)
  {
    if patientId == Sentinel {
      return synthetic;
    }
    if remote.None? {
      return synthetic;  // the search raised
    }
    var entries := remote.value;
    var observations: seq<Observation> := [];
    for i := 0 to |entries|
      invariant observations == ObservationsOf(entries[..i])
      invariant !HasMalformedDate(entries[..i], parse)
    {
      ObservationsOfConcat(entries[..i], [entries[i]]);
      assert entries[..i + 1] == entries[..i] + [entries[i]];
      var e := entries[i];
      if e.resource.Some? && e.resource.value.ObservationResource? {
        var o := e.resource.value.obs;
        if o.effectiveDateTime.Some? && parse(o.effectiveDateTime.value).None? {
          assert MalformedDate(entries[i], parse);
          return synthetic;
        }
        observations := observations + [o];
      }
      assert forall j :: 0 <= j < i ==> entries[..i + 1][j] == entries[..i][j];
    }
    assert entries[..|entries|] == entries;
    return observations;
  }

  /** An empty remote bundle is not a failure: it yields no observations and
      no fallback. */
  lemma EmptyBundleIsNotFallback(patientId: string, synthetic: seq<Observation>, parse: InstantParser)
    requires patientId != Sentinel
    ensures FetchPolicy(patientId, Some([]), synthetic, parse) == []
  {
  }

  /** Every remote observation that survives the policy carries either no
      effectiveDateTime or one that parses, so the normaliser never skips a
      surviving remote observation for an unparsable date. */
  lemma SurvivingDatesParse(es: seq<Entry>, parse: InstantParser, o: Observation)
    requires !HasMalformedDate(es, parse)
    requires o in ObservationsOf(es)
    ensures o.effectiveDateTime.Some? ==> parse(o.effectiveDateTime.value).Some?
  {
    ObservationsOfMembership(es, o);
    var i :| 0 <= i < |es| && es[i].resource == Some(ObservationResource(o));
    assert !MalformedDate(es[i], parse);
  }
}
