# FHIR vital-signs pipeline, modelled in Dafny

This project models the data pipeline of a small clinical dashboard (`app.py`).
The dashboard reads HL7 FHIR R4 `Observation` resources for one patient and
normalises them into rows, one per usable reading. It then labels each row
"Normal", "High Anomaly" or "Low Anomaly" against fixed thresholds. It falls
back to a synthetic bundle when the FHIR server fails or returns an unparsable
date. The Streamlit, plotly and HTTP shell around the pipeline is not modelled.

Modules, one per piece of the pipeline:

- `Wrappers` (`wrappers.dfy`): `Option`, which stands for Python's `None` and
  for "skip this observation".
- `Registry` (`registry.dfy`): `VITAL_SIGNS_MAP`, an immutable
  `map<string, Descriptor>` with `real` thresholds.
- `Fhir` (`fhir.dfy`): the resource shapes the pipeline reads (`Quantity`,
  `Component`, `Observation`, `Resource`, `Entry`). It also defines
  `InstantParser`, which stands for `datetime.fromisoformat` after "Z" is
  replaced by "+00:00".
- `Readings` (`readings.dfy`): the normalised row and the newest-first sort.
- `Normalizer` (`normalizer.dfy`): `parse_and_normalize_vitals`.
- `Classifier` (`classifier.dfy`): `flag_anomalies`, an in-place update of an
  `array<Row>`.
- `Fetcher` (`fetcher.dfy`): the fallback policy of `fetch_vitals_data`.
- `Patients` (`patients.dfy`): id extraction and selection in
  `fetch_valid_patient_ids`.

Things the code cannot see are parameters:

- the date parser (`parse`);
- the remote search results: `Option<seq<Entry>>`, where `None` means the
  search raised;
- the synthetic bundle (`synthetic: seq<Observation>`), standing for what
  `load_synthetic_data` returns.

Every Python exception the code catches becomes a `None` (skip) outcome.

In several places the design description of the system promises more than
`app.py` does. The model follows `app.py` in each case:

- A multi-component panel yields at most one row, and only from a component
  whose code equals the observation's own code. A standard blood-pressure panel
  (code 85354-9) therefore yields nothing (`Normalizer.PanelScenario`).
- There is no `effectivePeriod.start` fallback: a missing `effectiveDateTime`
  means the observation is skipped.
- Inside the normaliser, an unparsable date skips only that observation. The
  whole-batch fallback happens in `fetch_vitals_data`.
- An empty remote bundle is not a failure. It yields no observations, and the
  synthetic bundle is not used (`Fetcher.EmptyBundleIsNotFallback`).
- Every registry entry has both thresholds, so there is no
  "no thresholds, always Normal" case.
- Rows carry no subject id.

## Model

| member | source | states |
|---|---|---|
| `Registry.RegistryWellFormed` | app.py:16-27 | The registry holds exactly ten codes. Every code's thresholds satisfy low < high. Every name and unit is non-empty. |
| `Registry.NeverAboveAndBelow` | app.py:16-27 | For a registered code, no value is both above the high threshold and below the low one. |
| `Readings.SortNewestFirst` | app.py:194 | The sort by "Date/Time", descending, returns a permutation (multiset) of its input that is ordered non-increasing by timestamp. |
| `Readings.NewestFirstTimestampsDetermined` | app.py:190-194 | Any two newest-first orderings of the same rows have the same "Date/Time" column. The result does not depend on how the unstable sort breaks ties. |
| `Normalizer.ScanComponents` | app.py:162-168 | The component scan is characterised by where it stops. It gives NoMatch iff every component is stepped over. It gives Raised iff the first component not stepped over has an empty coding list. Otherwise it gives the valueQuantity of the first component whose first code is the observation's code and that has a valueQuantity. |
| `Normalizer.FindComponentQuantity` | app.py:163-168 | The inner `for ... break` loop computes exactly that scan result. |
| `Normalizer.NormalizeOneSound` | app.py:146-186 | An emitted row comes from a registered `coding[0]` code. It carries that code's registry name and thresholds unchanged and no flag. Its instant is the parse of the observation's own effectiveDateTime. Its value comes from the quantity the source reads: the direct valueQuantity if present, else the first matching component. Its unit is that quantity's unit if non-empty, else the canonical unit. |
| `Normalizer.NormalizeOneComplete` | app.py:153-186 | The converse: a registered first code, a supplied value (0 included) and a parsable effectiveDateTime always give exactly that row. |
| `Normalizer.NormalizeOneSkips` | app.py:157-177 | An observation is dropped when its present valueQuantity has no value, even if components would match. It is dropped when the component scan first reaches a component with no codings. It is dropped when its effectiveDateTime is missing or unparsable. |
| `Normalizer.NormalizeObservation` | app.py:145-188 | The per-observation try-block body. Each early return is a `continue` or a caught exception. It computes exactly `NormalizeOne`. |
| `Normalizer.Collected` | app.py:142-188 | The rows appended to `data` are at most one per observation. Each one is yielded by some input observation. |
| `Normalizer.CollectedComplete` | app.py:144-186 | Every row that an observation yields is collected. |
| `Normalizer.CollectedConcat` | app.py:144-188 | Skipping never aborts the pass. The rows of a batch are the rows of its parts, each part normalised independently and in order. |
| `Normalizer.ParseAndNormalizeVitals` | app.py:141-194 | The output is a permutation of the collected rows and is ordered newest-first. Each output row comes from one input observation. Every row an observation yields is present. When no observation is usable the output is empty. |
| `Normalizer.RowsAreRegistered` | app.py:146-186 | For any input, every output row has a registered code with that code's name and thresholds. Its timestamp is the parse of an input's effectiveDateTime. |
| `Normalizer.PanelScenario` | app.py:146-149 | A blood-pressure panel (code 85354-9) plus a heart-rate reading at the same instant yields only the heart-rate row. |
| `Normalizer.CodedPanelScenario` | app.py:162-168 | A panel coded 8480-6 whose components list diastolic before systolic yields one row, with the systolic value 145. |
| `Classifier.Classify` | app.py:204-213 | The label is High Anomaly iff v > high. It is Low Anomaly iff v <= high and v < low. It is Normal iff low <= v <= high. A value equal to a threshold is therefore Normal. |
| `Classifier.ClassifyOrdered` | app.py:210-213 | With low < high, the label is Low Anomaly iff v < low, and Normal iff low <= v <= high. |
| `Classifier.ClassifyExamples` | app.py:204-213 | Worked cases against {140, 90}: 145 is High, while 90, 140 and 100 are Normal. Against {100, 60}, 59 is Low. |
| `Classifier.FlagAnomalies` | app.py:200-215 | Each array element becomes its old row with the flag set from that row's own value and thresholds. Length, order and every other column are unchanged. |
| `Fetcher.ObservationsOfMembership` | app.py:116-127 | An observation is kept iff some bundle entry's resource is that Observation. |
| `Fetcher.ObservationsOfConcat` | app.py:115-127 | Keeping Observations commutes with splitting the bundle, so the kept observations stay in bundle order. |
| `Fetcher.ScanBundle` | app.py:115-127 | The loop with its early return. It fails iff some Observation has a present but unparsable effectiveDateTime. Otherwise it returns exactly the bundle's Observations. |
| `Fetcher.FetchPolicy` | app.py:103-135 | The sentinel "synth-pat-1" gives the synthetic bundle. A transport exception gives the synthetic bundle. A batch with any unparsable date gives exactly the synthetic bundle, so no remote observation survives. Otherwise the result is exactly the Observations of the bundle, in bundle order. |
| `Fetcher.FetchVitalsData` | app.py:103-135 | The loop with its early return computes exactly `FetchPolicy`. |
| `Fetcher.EmptyBundleIsNotFallback` | app.py:115-132 | For a non-sentinel patient, an empty remote bundle gives an empty list, not the synthetic bundle. |
| `Fetcher.SurvivingDatesParse` | app.py:120-127 | Every remote observation that survives the policy has either no effectiveDateTime or one that parses. |
| `Patients.Contains` | app.py:79 | `pat in s` holds iff `pat` occurs in `s` at some offset. |
| `Patients.LastSegment` | app.py:80 | `split("/")[-1]` is the longest suffix of the reference that holds no '/'. |
| `Patients.VersionedReferenceYieldsVersion` | app.py:80 | The reference "Patient/p1/_history/2" yields the id "2". |
| `Patients.RawIds` | app.py:74-80 | An id is in `raw_ids` iff some entry's subject reference yields it. |
| `Patients.CollectRawIds` | app.py:74-80 | The first loop builds exactly `RawIds`. |
| `Patients.KeepUsable` | app.py:82-86 | The second loop keeps exactly the raw ids whose own fetch is non-empty, each once. |
| `Patients.SortIds` | app.py:93 | `sorted` returns a permutation of its input in ascending code-point order. |
| `Patients.SortedDistinctIsStrict` | app.py:83-93 | Sorting a duplicate-free list gives a strictly ascending list. |
| `Patients.FetchValidPatientIds` | app.py:67-97 | The result is exactly ["synth-pat-1"] when the search raised or no candidate id has a non-empty fetch. Otherwise it is strictly ascending and holds exactly the raw ids whose fetch is non-empty. |

## Left out

- `display_dashboard` is not modelled. It is presentation only: widgets, the plotly chart, the date-range filter, and the CSV and JSON downloads.
- `main` is not modelled. It only wires the other functions together.
- The `st.info`, `st.warning`, `st.error` and `st.success` notices are not modelled. They are side effects with no data.
- `get_fhir_client` and the `Observation.where(...).perform(...)` searches are not modelled. They are the HTTP transport. Each search result is a parameter, and `None` stands for an exception.
- The file reading and JSON decoding in `load_synthetic_data` are not modelled. The synthetic bundle is a parameter of type `seq<Observation>`, possibly empty.
- `datetime.fromisoformat` is the uninterpreted `InstantParser` parameter. Every parsed instant lies on one integer timeline. pandas raises when it sorts timezone-aware and naive datetimes together. That error is uncaught in the source and is not modelled.
- `float(value)` is a `real`. Only comparisons use it, so no floating-point rounding is modelled.
- `Readings.SortNewestFirst`: pandas' default sort is not stable, so the model does not claim any order among rows with equal timestamps. The normaliser promises only a newest-first permutation.
- The `validate_only` flag of `fetch_vitals_data` is not a parameter, because both of its branches return the same list.
- Bundle entries whose resource kind has no `subject` attribute are not modelled. In Python such an entry raises during patient discovery, and the whole discovery then returns ["synth-pat-1"]. In the model, every resource has an optional subject reference.
- Absent codes are modelled as follows. An observation or component whose `code` or `coding` is missing has an empty `codings` sequence, on which `coding[0]` raises. A coding whose `code` is missing is `None`.
- The per-observation body of the normaliser (`NormalizeObservation`) is a method of its own. So are the two loops of `fetch_valid_patient_ids` (`CollectRawIds`, `KeepUsable`). The source inlines all three.
