/** Small value types shared by every part of the vault model. */
module Common {

  datatype Option<+T> = None | Some(value: T)

  /** A value or the message of the Error the source would throw. */
  datatype Result<+T> = Ok(value: T) | Err(message: string)

  /**
   * What `FormData.get(name)` yields: a string, nothing (`null`), or an
   * uploaded file (identified by the object it is). Structural equality on
   * this type is JavaScript's `===` on those values.
   */
  datatype FormValue = Text(text: string) | Missing | Upload(fileRef: nat)
}
