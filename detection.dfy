/**
 * The detection results the engine consumes: the raw per-frame result of the
 * protective-equipment detector, an analysed video frame, and the per-person
 * record produced by the person mapper of the live path.
 */
module Detection {
  import opened Wrappers

  /** An entry of `EquipmentDetections`: its type tag and confidence. */
  datatype Equipment = Equipment(typ: string, confidence: real)

  /** A body part; `equipment` is None when `EquipmentDetections` is missing or not an array. */
  datatype BodyPart = BodyPart(name: string, equipment: Option<seq<Equipment>>)

  /** A detected person; `bodyParts` is None when `BodyParts` is missing. */
  datatype Person = Person(id: int, bodyParts: Option<seq<BodyPart>>)

  /** A raw detection result `{ Persons }`. */
  datatype DetectionResult = DetectionResult(persons: seq<Person>)

  /** The result substituted for a frame whose detection failed, and returned when nothing matches. */
  const NoPersons := DetectionResult([])

  /** One analysed video frame `{ timestamp, time, result }`: seconds, milliseconds, detection. */
  datatype AnalysedFrame = AnalysedFrame(timestamp: real, time: real, result: DetectionResult)

  /** An entry of `ppeCompliance`; `present` is None when it is missing or not a boolean. */
  datatype ComplianceEntry = ComplianceEntry(present: Option<bool>)

  /** A mapped person of the live path, reduced to the fields the core reads. */
  datatype MappedPerson = MappedPerson(
    hasAlarm: bool,
    ppeCompliance: Option<map<string, ComplianceEntry>>,
    missingPPE: Option<seq<string>>)
}
