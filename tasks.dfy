/**
 * The task record and the small enumerations that go with it
 * (`Task`, `WorkWeight`, `SortType`, `ParseError` in src/parser.rs).
 */
module Tasks {
  import opened Results

  /** A `NaiveDateTime` as whole seconds from a fixed origin, local time with no offset. */
  type Timestamp = int

  /** A relative estimate of effort; shown, never used for ordering. */
  datatype WorkWeight = UltraLight | Light | Medium | Heavy | UltraHeavy

  /** The three orderings the task store can apply. */
  datatype SortType = Alphabetical | ClosestToDeadline | FurthestFromDeadline

  datatype Task = Task(dueDate: Timestamp, name: string, weight: WorkWeight)

  /** The one error the command layer returns: a due date it could not read. */
  datatype ParseError = DateParseError(message: string)

  /** `Task::new`: keeps the three values it is given, unchanged. */
  function NewTask(dueDate: Timestamp, name: string, weight: WorkWeight): (t: Task)
    ensures t.dueDate == dueDate && t.name == name && t.weight == weight
  {
    Task(dueDate, name, weight)
  }

  /** The variant's own name, as `#[derive(Debug)]` and serde's unit-variant encoding write it. */
  function WeightName(w: WorkWeight): (s: string)
    ensures WeightFromName(s) == Some(w)
    ensures forall i :: 0 <= i < |s| ==> 'A' <= s[i] <= 'Z' || 'a' <= s[i] <= 'z'
  {
    match w
    case UltraLight => "UltraLight"
    case Light => "Light"
    case Medium => "Medium"
    case Heavy => "Heavy"
    case UltraHeavy => "UltraHeavy"
  }

  /** Reads a variant name back; `None` for any other text. */
  function WeightFromName(s: string): Option<WorkWeight> {
    if s == "UltraLight" then Some(UltraLight)
    else if s == "Light" then Some(Light)
    else if s == "Medium" then Some(Medium)
    else if s == "Heavy" then Some(Heavy)
    else if s == "UltraHeavy" then Some(UltraHeavy)
    else None
  }
}
