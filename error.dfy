/** The error value `authenticate` rejects with on a failed check. */
module PasswordMismatch {
  import opened JsValues

  const DefaultMessage: string := "Invalid password"
  const ErrorName: string := "PasswordMismatchError"

  /**
   * An instance of the `Error` subclass: the `message` and `name` properties
   * every `Error` carries. It is built once and never updated.
   */
  datatype PasswordMismatchError = PasswordMismatchError(message: string, name: string)

  /**
   * `new PasswordMismatchError(message)`: a falsy message (absent, null or the
   * empty string) falls back to the default; the name is fixed.
   */
  function NewPasswordMismatchError(message: Value): (e: PasswordMismatchError)
    ensures e.name == ErrorName
    ensures message == Undef ==> e.message == DefaultMessage
    ensures message == Null ==> e.message == DefaultMessage
    ensures message == Str("") ==> e.message == DefaultMessage
    ensures message.Str? && message.s != "" ==> e.message == message.s
    ensures e.message != ""
  {
    PasswordMismatchError(if Truthy(message) then message.s else DefaultMessage, ErrorName)
  }
}
