/** Failure-compatible result types for the feature reader.

The reader aborts on the first violation it meets. Every abort is one
`Failure` value; most are the `IOException`s the reader throws itself, a few
are the unchecked exceptions thrown by the code it calls (an unknown
extension type, a malformed artifact coordinate, a null dereference).
 */
module Outcomes {

  datatype Option<+T> = None | Some(value: T)

  /** Why a read was aborted. Messages are reduced to a tag plus the offending text. */
  datatype Failure =
    | WrongType(key: string)                 // checkType: value is not one of the allowed types
    | NullPointer                            // a NullPointerException escaped
    | MissingField(what: string)             // a required key is absent
    | DuplicateVariable(name: string)
    | DuplicateBundle(bundle: string)
    | IllegalStartOrder(bundle: string)
    | ConfigurationErrors(messages: seq<string>)
    | ReservedConfigurationProperty(pid: string)
    | DuplicateConfiguration(pid: string)
    | DuplicateFrameworkProperty(key: string)
    | ReservedExtensionName(name: string)
    | DuplicateExtension(name: string)
    | UnknownExtensionType(typeName: string) // IllegalArgumentException from the enum lookup
    | DuplicateExtensionArtifact(name: string)
    | MalformedArtifactId(text: string)      // IllegalArgumentException from the coordinate parser
    | MalformedLocation(text: string)
    | Unmarshal(message: string)             // whatever the attribute/directive unmarshaller raised
  {
    /** True for the failures the reader reports as `IOException`. */
    predicate IsIOException() {
      !(NullPointer? || UnknownExtensionType? || MalformedArtifactId?)
    }
  }

  /** The outcome of a check that produces no value. */
  datatype Outcome = Pass | Fail(error: Failure) {
    predicate IsFailure() { Fail? }

    function PropagateFailure<U>(): Result<U>
      requires Fail?
    {
      Err(error)
    }
  }

  /** The outcome of a reading step: a value, or the failure that aborted it. */
  datatype Result<+T> = Ok(value: T) | Err(error: Failure) {
    predicate IsFailure() { Err? }

    function PropagateFailure<U>(): Result<U>
      requires Err?
    {
      Err(error)
    }

    function Extract(): T
      requires Ok?
    {
      value
    }
  }
}
