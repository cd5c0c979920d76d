/**
 * The JavaScript values that reach the password plugin: a plaintext, a stored
 * digest or an error message is `undefined`, `null` or a string.
 */
module JsValues {

  /** `undefined`, `null` or a string; other JavaScript types are not modelled. */
  datatype Value = Undef | Null | Str(s: string)

  /** JavaScript truthiness on these values: only a non-empty string is truthy. */
  predicate Truthy(v: Value) {
    v.Str? && v.s != ""
  }
}
