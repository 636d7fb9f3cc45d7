/** Field values, records and the six correlated record kinds of the accreditation store. */
module Records {

  datatype Option<+T> = None | Some(value: T)

  /** A field value as the store and the views see it: Python's None, a string,
      a number (int, float and Decimal alike, kept opaque as a real) or a timestamp. */
  datatype Value = Null | Text(s: string) | Num(x: real) | Stamp(t: int)

  /** One row of a table, or the keyword arguments of a DAO call: field name to value. */
  type Record = map<string, Value>

  /** Django's `ValidationError.message_dict`: field name to its messages. */
  type FieldErrors = map<string, seq<string>>

  /** The six correlation tables. */
  datatype Kind = DataProcess | FacultyCI | ProgramCI | AssessValidity | AccredReport | AnnualReport

  /** The fixed order in which `upload_data` inserts and `delete_entry` deletes. */
  const GroupOrder: seq<Kind> := [DataProcess, FacultyCI, ProgramCI, AssessValidity, AccredReport, AnnualReport]

  /** Attribute access on a model instance: a field that was never set reads as None. */
  function Field(rec: Record, name: string): Value
  {
    if name in rec then rec[name] else Null
  }

  /** `dict.get(name, default)`. */
  function GetOr(rec: Record, name: string, default: Value): Value
  {
    if name in rec then rec[name] else default
  }

  /** Python truthiness of a value: None, the empty string and zero are false. */
  predicate Truthy(v: Value)
  {
    match v
    case Null => false
    case Text(s) => s != ""
    case Num(x) => x != 0.0
    case Stamp(_) => true
  }
}
