/** The exceptions that cross from the store and the service to the controller. */
module Exceptions {

  /** A RuntimeException with its message, the NullPointerException of a null dereference,
      the Bean Validation failure raised when a row breaking the entity constraints is written,
      and the store's DataIntegrityViolationException. All are RuntimeExceptions; the controller
      tells only the last one apart. */
  datatype Failure = RuntimeError(message: string) | NullPointer | ConstraintViolation | DataIntegrityViolation
}
