/** Shared vocabulary: optional values and the status an operation reports. */
module Base {

  datatype Option<T> = None | Some(value: T)

  /** `Fatal` stands for a failed CHECK, which aborts the process. */
  datatype Status = Ok | Fatal(reason: string)
}
