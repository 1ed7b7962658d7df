/** The interaction-log record that the backend stores and filters, and the
    optional value used for an absent query parameter. */
module Interaction {

  /** A value that may be absent (the backend's `None`). */
  datatype Option<+T> = None | Some(value: T)

  /** One learner's recorded action on one item. `kind` is a free-form tag
      such as "attempt"; no operation of this model consults it. */
  datatype InteractionLog = InteractionLog(id: int, learnerId: int, itemId: int, kind: string)
}
