/** Result values standing for the values, nulls and exceptions of the Java code. */
module Outcomes {

  /** A Java reference that may be null. */
  datatype Option<+T> = None | Some(value: T)

  /** The exceptions the modelled code raises, one constructor per distinct message or cause. */
  datatype Failure =
    | NameRequired        // "El nombre es obligatorio"
    | NameLength          // "El nombre debe tener entre 2 y 50 caracteres"
    | EmailFormat         // "Formato de correo inválido. ..."
    | EmailDuplicate      // "El correo ya existe en el sistema"
    | EmailTooLong        // "El correo es demasiado largo"
    | NullPointer         // a NullPointerException
    | IndexOutOfBounds    // a StringIndexOutOfBoundsException

  /** Outcome of a `void` validator: it returns normally or throws. */
  datatype Outcome = Pass | Fail(error: Failure)

  /** Outcome of a method that returns a value or throws. */
  datatype Result<+T> = Ok(value: T) | Err(error: Failure)
}
