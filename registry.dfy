/** The curated vital-sign code registry: a constant map from a LOINC code to
    the sign's display name, canonical unit and its {high, low} threshold pair. */
module Registry {

  /** The threshold pair a reading is compared against. */
  datatype Thresholds = Thresholds(high: real, low: real)

  /** What the registry knows about one code. */
  datatype Descriptor = Descriptor(name: string, unit: string, thresholds: Thresholds)

  /** The ten supported codes. Any other code is "unsupported", never an error. */
  const VitalSigns: map<string, Descriptor> := map[
    "8480-6"  := Descriptor("Systolic Blood Pressure", "mmHg", Thresholds(140.0, 90.0)),
    "8462-4"  := Descriptor("Diastolic Blood Pressure", "mmHg", Thresholds(90.0, 60.0)),
    "8867-4"  := Descriptor("Heart Rate", "/min", Thresholds(100.0, 60.0)),
    "9279-1"  := Descriptor("Respiratory Rate", "/min", Thresholds(24.0, 12.0)),
    "8310-5"  := Descriptor("Body Temperature", "Cel", Thresholds(38.0, 35.0)),
    "2708-6"  := Descriptor("Oxygen Saturation", "%", Thresholds(100.0, 90.0)),
    "29463-7" := Descriptor("Body Weight", "kg", Thresholds(150.0, 30.0)),
    "8302-1"  := Descriptor("Body Height", "cm", Thresholds(220.0, 100.0)),
    "39156-5" := Descriptor("Body Mass Index (BMI)", "kg/m2", Thresholds(30.0, 18.5)),
    "41653-7" := Descriptor("Glucose", "mg/dL", Thresholds(180.0, 70.0))
  ]

  /** A threshold pair that leaves room for normal values. */
  predicate Ordered(t: Thresholds) {
    t.low < t.high
  }

  /** Every registered pair is ordered, the registry holds exactly ten codes,
      and no code's canonical unit or name is empty. */
  lemma RegistryWellFormed()
    ensures |VitalSigns| == 10
    ensures forall c :: c in VitalSigns ==> Ordered(VitalSigns[c].thresholds)
    ensures forall c :: c in VitalSigns ==> VitalSigns[c].unit != [] && VitalSigns[c].name != []
  {
    RegistrySize();
    ThresholdsOrdered();
    DescriptorsNamed();
  }

  lemma RegistrySize()
    ensures |VitalSigns| == 10
  {
  }

  lemma ThresholdsOrdered()
    ensures forall c :: c in VitalSigns ==> Ordered(VitalSigns[c].thresholds)
  {
  }

  lemma DescriptorsNamed()
    ensures forall c :: c in VitalSigns ==> VitalSigns[c].unit != [] && VitalSigns[c].name != []
  {
  }

  /** Because every pair is ordered, no registered code can flag a value both
      above its high threshold and below its low one. */
  lemma NeverAboveAndBelow(code: string, v: real)
    requires code in VitalSigns
    ensures !(v > VitalSigns[code].thresholds.high && v < VitalSigns[code].thresholds.low)
  {
    ThresholdsOrdered();
  }
}
