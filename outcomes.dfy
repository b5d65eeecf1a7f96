/** Option, the errors the listeners raise, and the two ways an operation ends. */
module Outcomes {

  datatype Option<T> = None | Some(value: T)

  /** The exceptions the listeners let escape; each one aborts the whole run. */
  datatype Error =
    | NoArguments        // an add-target command without arguments
    | CompoundArgument   // a bracketed argument where only simple ones are supported
    | MissingName        // a node would be created with an empty name
    | MissingArgument    // an index past the end of an argument list (Python's IndexError)
    | MissingHeaderKey(key: string)  // an append to an absent header-map entry (Python's KeyError)
    | NoLinkTargets(target: string)  // reconciliation found nothing at all to link

  datatype Result<T> = Ok(value: T) | Err(error: Error)

  /** How a listener callback ends: normally, or by raising. */
  datatype Status = Done | Failed(error: Error)
}
