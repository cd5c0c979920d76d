# bookshelf-secure-password, modelled in Dafny

This project models the password layer that the `bookshelf-secure-password`
plugin adds to a Bookshelf model type. The model covers these parts:

- the two configuration resolvers: which column holds the digest, and how many
  bcrypt rounds to use;
- the emptiness policy and the three outcomes of hashing (`null`, "no digest",
  a bcrypt digest);
- the per-instance state the plugin installs: the `password` virtual, whose
  setter fills the private slot `__password`, and the `saving` hook, which turns
  that slot into a write (or no write) on the digest column;
- `authenticate`, which falls back, short-circuits to a mismatch, or consults
  bcrypt's `compare`;
- the `PasswordMismatchError` value.

bcrypt is outside the model. `genSalt`'s random source is a parameter
(`draw`: the random value a call obtained, or its failure). `hash` and
`compare` are function values in `Bcrypt.Primitive`. Where a property needs
bcrypt's own guarantee (a digest is a non-empty string that compares true
against its plaintext), the lemma requires `Bcrypt.Sound`. Each asynchronous
call is modelled as one step that either settles with a value or fails.

Files and modules:

- `values.dfy` (`JsValues`): `undefined | null | string` and their truthiness.
- `bcrypt.dfy` (`Bcrypt`): the opaque primitive.
- `error.dfy` (`PasswordMismatch`): `lib/error.js`.
- `field_policy.dfy` (`FieldPolicy`): model-type configuration and the resolvers.
- `hashing.dfy` (`PasswordHashing`): `isEmpty` and `hash`.
- `secure_password.dfy` (`SecurePassword`): the instance as a value, with
  `get`, `set`, construction, the `saving` hook and `authenticate` as functions.
- `secure_model.dfy` (`SecureModel`): the class `Model`. Its constructor runs
  the enable gate, and its methods change the instance in place. Each method
  is proved against the `SecurePassword` function for the same step.
- `lifecycle.dfy` (`Lifecycle`): runs of `set` calls and saves, and the
  scenarios the plugin's tests describe.

Behaviour of the code worth noting:

- `bcryptRounds` accepts any integer the number's own string parses back to.
  There is no positivity check. Integers of magnitude 10^21 or more print in
  exponent form, so they fall back to 12.
- Any string `hasSecurePassword` is used verbatim as the column name. That
  includes `''`, which disables the plugin.
- A rejection from `compare` is propagated unchanged (`CompareRejected`). It is
  not collapsed into a mismatch.
- Hashing happens only in the `saving` hook. No hashing happens at set time.
- The hook's `model.unset('password')` and `model.set(column, digest)` go
  through the host's `set`, like every other assignment. The virtuals plugin
  enabled at lib/secure-password.js:21 routes a `set` of `password` to the
  virtual's setter. So, unless the digest column is `password` itself, a
  successful save clears `__password`, and a later save without a new
  assignment hashes nothing and leaves the digest alone. A rejected save keeps
  `__password`, so a retry hashes the same plaintext again. With
  `hasSecurePassword: 'password'` the hook's `set` of the column also reaches
  the setter: the slot ends up holding the digest (or `null`), and the
  attribute store is untouched.

## Model

| member | source | states |
|---|---|---|
| `PasswordMismatch.NewPasswordMismatchError` | lib/error.js:3-8 | name is always `PasswordMismatchError`; an absent, null or empty message falls back to `Invalid password`, a non-empty one is kept verbatim; the message is never empty |
| `FieldPolicy.PasswordDigestField` | lib/secure-password.js:29-35 | a string `hasSecurePassword` is the column verbatim, a boolean gives `password_digest`; an enabled model never gets the empty column name |
| `FieldPolicy.BcryptRounds` | lib/secure-password.js:43-49 | an integer below 10^21 in magnitude is returned exactly, with no positivity check; a larger one (exponent form defeats `parseInt`) or a non-integer gives 12 |
| `Bcrypt.GenSalt` | lib/secure-password.js:67-68 | salt generation succeeds exactly when the random source does, and the salt carries the requested cost |
| `PasswordHashing.IsEmpty` | lib/secure-password.js:80-86 | true exactly for undefined, null and `""`; coincides with JavaScript falsiness, so whitespace is not empty |
| `PasswordHashing.Hash` | lib/secure-password.js:58-72 | `null` gives `null`, other empties give undefined and never fail; a non-empty string succeeds exactly when salt generation and bcrypt's `hash` both succeed, and then gives bcrypt's digest of it under the drawn salt of cost `rounds` |
| `SecurePassword.Get` | lib/secure-password.js:98-99 | on an enabled model `password` always reads undefined; every other key reads exactly what the attribute store holds, and undefined when absent |
| `SecurePassword.Set` | lib/secure-password.js:98-103 | on an enabled model assigning `password` writes only the private slot; any other assignment writes that key and no other attribute |
| `SecurePassword.Construct` | lib/secure-password.js:121-127 | the virtual exists only when `hasSecurePassword` is truthy: an enabled model takes an initial `password` into the slot and keeps it out of the store, a disabled one stores it |
| `SecurePassword.Saving` | lib/secure-password.js:105-115 | no hook when disabled; for a non-empty slot the save succeeds exactly when bcrypt does, and a failure writes nothing; on success only the resolved column can change, the slot is cleared through the virtual unless the column is `password` (then the slot holds the hash outcome and the store is untouched), `null` clears the column, undefined/`''` leave it, a non-empty plaintext stores bcrypt's digest under a salt of cost `bcryptRounds` |
| `SecurePassword.Authenticate` | lib/secure-password.js:137-157 | falls back exactly when disabled; empty plaintext or empty/absent digest rejects; resolves to the same model exactly when `compare` answers true; every rejection is the default `PasswordMismatchError`; `compare`'s own rejection propagates, exactly when `compare` was consulted and rejected |
| `SecureModel.Model.constructor` | lib/secure-password.js:121-127 | the gate leaves the virtual and hook installed exactly when enabled, with the instance equal to `Construct` |
| `SecureModel.Model.EnablePasswordHashing` | lib/secure-password.js:94-116 | installs the virtual and registers the hook on the column resolved at that moment, touching no attribute and not the slot |
| `SecureModel.Model.SetPassword` | lib/secure-password.js:100-102 | the setter writes `__password` and nothing else |
| `SecureModel.Model.Get` | lib/secure-password.js:99 | the installed getter makes `password` read undefined |
| `SecureModel.Model.Set` | lib/secure-password.js:98-103 | the in-place assignment yields the state `SecurePassword.Set` describes, keeping the virtual and hook |
| `SecureModel.Model.Saving` | lib/secure-password.js:105-115 | the in-place hook, whose `unset` and `set` go through `Set`, yields the state `SecurePassword.Saving` describes on success and leaves the instance unchanged on failure |
| `SecureModel.Model.Authenticate` | lib/secure-password.js:137-157 | reads the digest through `get` and settles as `SecurePassword.Authenticate` does on this model's store; resolves only to this very model; falls back exactly when the virtual is not installed |
| `Lifecycle.PasswordNeverStored` | lib/secure-password.js:98-115 | on an enabled model no sequence of sets and saves ever puts `password` in the attribute store |
| `Lifecycle.IdleSaves` | lib/secure-password.js:105-115 | with an undefined private slot any number of saves leave the instance exactly as it was |
| `Lifecycle.SavedThenIdle` | lib/secure-password.js:108-112 | unless the column is `password`, a successful save clears the slot, so later saves without a new assignment neither rehash nor touch the digest column |
| `Lifecycle.PasswordSetsKeepAttributes` | lib/secure-password.js:100-102 | any number of `password` assignments leave the attribute store unchanged |
| `Lifecycle.NothingStoredBeforeSave` | test/secure-password.spec.js:49-56 | before a save neither `password` nor the digest column is present or readable, and `authenticate` rejects with the default error |
| `Lifecycle.SetSaveAuthenticate` | test/secure-password.spec.js:184-205 | when bcrypt hashes successfully the save goes through; with a sound bcrypt the same plaintext then authenticates to the model, and a plaintext `compare` refuses rejects with the default error |
| `Lifecycle.NullClearsDigest` | test/secure-password.spec.js:64-71 | saving after `password = null` sets the digest column to null, whatever bcrypt would do |
| `Lifecycle.EmptyKeepsDigest` | test/secure-password.spec.js:73-89 | saving after `password = undefined` or `''` keeps the digest column as it was |
| `Lifecycle.BlankIsHashed` | test/secure-password.spec.js:91-98 | a spaces-only plaintext is hashed: when bcrypt succeeds the save goes through and the column reads bcrypt's digest of it |
| `Lifecycle.CustomColumnOnly` | test/secure-password.spec.js:126-139 | with `custom_column`, a save never touches `password_digest` |
| `Lifecycle.RoundsReachSalt` | test/secure-password.spec.js:141-163 | when bcrypt succeeds, the stored digest is bcrypt's hash under a salt of cost 5 for the configured rounds and 12 by default |
| `Lifecycle.FailedSaveChangesNothing` | lib/secure-password.js:106-114 | a rejected hook leaves attributes and slot as they were, and can only happen for a non-empty plaintext |
| `Lifecycle.ShortCircuitIgnoresCompare` | lib/secure-password.js:144-146 | with an empty plaintext or digest the outcome does not depend on bcrypt and never resolves |
| `Lifecycle.DisabledIsInert` | lib/secure-password.js:140-142 | a disabled model stores `password` as a plain attribute, saves without hashing and delegates `authenticate` |
| `Lifecycle.PasswordNamedColumnNeverAuthenticates` | lib/secure-password.js:138 | with `hasSecurePassword: 'password'` the digest is read through the virtual's getter, so `authenticate` never resolves |

## Left out

- bcrypt internals are not modelled: the `$2b$NN$` cost marker, salt randomness, and how `hash` and `compare` compute. The cost reaching the digest is stated through the salt's recorded cost. That two digests of the same plaintext differ holds only because salts are random, so it cannot be proved here.
- Promises and scheduling are not modelled. Each hook run or `authenticate` call is one step that settles with a value or fails.
- Bookshelf machinery is not modelled: the event emitter and listener ordering, and persistence. The virtuals plugin is modelled only as far as it routes a `set` of `password` to the virtual. That `unset(key)` is a `set(key, undefined)` is the host's behaviour and is taken as given, because the host's code is not part of this model.
- The base `authenticate` that a disabled model delegates to is outside the shown code. It is the `Fallback` outcome.
- Virtuals that a model type declares itself are not modelled. Only the `password` virtual added to `model.virtuals` is.
- The plugin's registration of the error class on Bookshelf and on the model type (lib/secure-password.js:15-16) is not modelled. `authenticate` uses the class from lib/error.js.
- A missing bcrypt module (lib/secure-password.js:11-13) is not modelled.
- `PasswordMismatch.NewPasswordMismatchError`: the prototype chain (`extends Error`, `instanceof`) is not modelled. The subtype shows only as the `Rejected` outcome, which carries this error and no other.
- `FieldPolicy.BcryptRounds`: a configured number is an unbounded integer, not a double. Integers that a double cannot represent exactly are not modelled.
- JavaScript coercion is not modelled. Values are restricted to undefined, null and strings. `bcryptRounds` is restricted to integer-or-not, so floats and NaN fall under "not an integer".
- index.js and lib/index.js are not part of this model. They are superseded variants that hash synchronously with a fixed cost of 10.
- The test where a second `saving` listener throws depends on listener ordering, so no property is taken from it.
