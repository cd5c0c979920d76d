/** The emptiness policy and the three outcomes of hashing a plaintext. */
module PasswordHashing {
  import opened JsValues
  import opened Bcrypt

  /** `isEmpty(str)`: undefined, null and the zero-length string; whitespace is not empty. */
  function IsEmpty(v: Value): (empty: bool)
    ensures empty <==> v == Undef || v == Null || v == Str("")
    ensures empty <==> !Truthy(v)
  {
    match v
    case Undef => true
    case Null => true
    case Str(s) => |s| == 0
  }

  /**
   * `hash(rounds, value)`: `null` settles with `null`, any other empty value
   * with `undefined` (no digest), and only a non-empty string reaches bcrypt,
   * whose digest is taken under a salt generated with `rounds`.
   */
  function Hash(rounds: int, value: Value, draw: Outcome<nat>, bcrypt: Primitive): (r: Outcome<Value>)
    ensures value == Null ==> r == Done(Null)
    ensures value != Null && IsEmpty(value) ==> r == Done(Undef)
    ensures r.Failed? ==> !IsEmpty(value)
    ensures !IsEmpty(value) && draw.Failed? ==> r.Failed?
    ensures !IsEmpty(value) ==>
      (r.Done? <==> draw.Done? && bcrypt.hash(value.s, Salt(rounds, draw.value)).Done?)
    ensures !IsEmpty(value) && r.Done? ==>
      draw.Done? && r.value == Str(bcrypt.hash(value.s, Salt(rounds, draw.value)).value)
    ensures r.Done? && r.value.Str? ==> !IsEmpty(value)
  {
    if value == Null then Done(Null)
    else if IsEmpty(value) then Done(Undef)
    else
      match GenSalt(rounds, draw)
      case Failed => Failed
      case Done(salt) =>
        match bcrypt.hash(value.s, salt)
        case Failed => Failed
        case Done(digest) => Done(Str(digest))
  }
}
