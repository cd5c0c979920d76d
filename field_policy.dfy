/**
 * The per-model-type configuration and the two pure resolvers that read it:
 * which column holds the digest and how many bcrypt rounds to use.
 */
module FieldPolicy {

  const PasswordField: string := "password"
  const DefaultDigestField: string := "password_digest"
  const DefaultSaltRounds: int := 12

  /** `hasSecurePassword`: a boolean, or a string naming the digest column. */
  datatype SecureCfg = BoolCfg(b: bool) | StrCfg(s: string)

  /** `bcryptRounds`: an integer number, or anything else (absent, fractional, not a number). */
  datatype Rounds = IntRounds(n: int) | NotInt

  /** The properties a model type declares; they are fixed when the type is defined. */
  datatype ModelType = ModelType(hasSecurePassword: SecureCfg, bcryptRounds: Rounds)

  /** The plugin is enabled when `hasSecurePassword` is truthy. */
  predicate Enabled(t: ModelType) {
    match t.hasSecurePassword
    case BoolCfg(b) => b
    case StrCfg(s) => s != ""
  }

  /** `passwordDigestField(model)`: a string setting is the column name, verbatim. */
  function PasswordDigestField(t: ModelType): (field: string)
    ensures t.hasSecurePassword.StrCfg? ==> field == t.hasSecurePassword.s
    ensures t.hasSecurePassword.BoolCfg? ==> field == DefaultDigestField
    ensures Enabled(t) ==> field != ""
  {
    match t.hasSecurePassword
    case StrCfg(s) => s
    case BoolCfg(_) => DefaultDigestField
  }

  /**
   * From this magnitude on, a JavaScript number prints in exponent form
   * (`1e+21`), so `parseInt` of its string no longer gives the number back.
   */
  const ExponentFormFrom: int := 1_000_000_000_000_000_000_000

  /**
   * `bcryptRounds(model)`: an integer that survives `parseInt` of its own
   * string is used as is, with no positivity check; anything else gives 12.
   */
  function BcryptRounds(t: ModelType): (rounds: int)
    ensures t.bcryptRounds.IntRounds? && -ExponentFormFrom < t.bcryptRounds.n < ExponentFormFrom ==>
      rounds == t.bcryptRounds.n
    ensures t.bcryptRounds.IntRounds? && !(-ExponentFormFrom < t.bcryptRounds.n < ExponentFormFrom) ==>
      rounds == DefaultSaltRounds
    ensures t.bcryptRounds.NotInt? ==> rounds == DefaultSaltRounds
    ensures -ExponentFormFrom < rounds < ExponentFormFrom
  {
    match t.bcryptRounds
    case IntRounds(n) => if -ExponentFormFrom < n < ExponentFormFrom then n else DefaultSaltRounds
    case NotInt => DefaultSaltRounds
  }
}
