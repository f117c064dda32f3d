/**
 * The shapes the validation engine passes around: result and rule records,
 * the glider context, and the input of the APPI trim rule. Timestamps are
 * not modelled.
 */
module ValidationTypes {
  import opened Wrappers
  import opened OrderedMaps

  datatype Status = Pass | Fail | Warning | Pending

  datatype Category = Safety | Measurement | Documentation

  datatype Severity = Critical | Warning | Info

  /** One entry of the APPI rule's `details.corrections` record. */
  datatype Correction = Correction(ab: int, ac: int, loopsA: int, loopsB: int, loopsC: int)

  /**
   * The `details` payload of a result: the APPI rule's correction table, or
   * the record of some other rule, kept as opaque text fields.
   */
  datatype Details =
    | TrimCorrections(corrections: OrderedMap<string, Correction>)
    | OtherDetails(fields: map<string, string>)

  datatype ValidationResult = ValidationResult(status: Status, message: string, details: Option<Details>)

  /** What a `catch` clause receives: an `Error` object with its message, or any other thrown value. */
  datatype ErrorValue = ErrorObject(message: string) | NonError

  /** How a call of a rule's `validate` ends: it returns a result or it throws. */
  datatype Outcome = Returned(result: ValidationResult) | Threw(error: ErrorValue)

  /** Lengths in mm of lines A, B and C; further families (D, K, ...) are carried but unused. */
  datatype LineLengths = LineLengths(a: int, b: int, c: int, others: map<string, int>)

  /** One suspension-line group: measured and manufacturer lengths of its lines. */
  datatype LineGroup = LineGroup(name: string, measured: LineLengths, manufacturer: LineLengths)

  /** The data the APPI trim rule reads: the aspect ratio and the line groups. */
  datatype TrimInput = TrimInput(aspectRatio: real, groups: seq<LineGroup>)

  /** What identifies the glider being validated. */
  datatype GliderContext = GliderContext(
    manufacturer: string,
    model: string,
    serialNumber: string,
    validationHistory: Option<seq<ValidationResult>>)

  /** The `data` handed to a rule's `validate`: a glider context or a trim measurement set. */
  datatype Payload = GliderData(context: GliderContext) | TrimData(input: TrimInput)

  /** What a rule's `validate` does: the APPI trim check, or any other (total) behaviour. */
  datatype Behaviour = AppiTrimCheck | Custom(validate: Payload -> Outcome)

  /**
   * A registered rule. `appiReference` is absent on a plain rule.
   * `manufacturerSpecific` is None when the object has no such property and
   * Some(b) when it has one, `b` being the truthiness of its value.
   */
  datatype Rule = Rule(
    id: string,
    name: string,
    description: string,
    category: Category,
    severity: Severity,
    appiReference: Option<string>,
    manufacturerSpecific: Option<bool>,
    requiresTechnicianInput: Option<bool>,
    behaviour: Behaviour)
}
