/**
 * The per-instance behaviour the plugin installs, as functions on a snapshot
 * of the instance: the `password` virtual, the `saving` hook and
 * `authenticate`. The class in module SecureModel performs the same steps in
 * place and is proved against these functions.
 */
module SecurePassword {
  import opened JsValues
  import opened Bcrypt
  import opened PasswordMismatch
  import opened FieldPolicy
  import opened PasswordHashing

  /** What the plugin sees of an instance: its attribute store and the private slot `__password`. */
  datatype Instance = Instance(attrs: map<string, Value>, priv: Value)

  /** True when `key` is absent from both maps or present in both with the same value. */
  predicate SameAt(a: map<string, Value>, b: map<string, Value>, key: string) {
    (key in a <==> key in b) && (key in a ==> a[key] == b[key])
  }

  /**
   * `model.get(key)`: for an enabled model the `password` virtual answers with
   * its getter, which yields nothing; every other key reads the attribute store.
   */
  function Get(t: ModelType, attrs: map<string, Value>, key: string): (v: Value)
    ensures Enabled(t) && key == PasswordField ==> v == Undef
    ensures !(Enabled(t) && key == PasswordField) && key in attrs ==> v == attrs[key]
    ensures v != Undef ==> key in attrs && attrs[key] == v
  {
    if Enabled(t) && key == PasswordField then Undef
    else if key in attrs then attrs[key]
    else Undef
  }

  /**
   * `model.set(key, value)`: on an enabled model the `password` virtual's
   * setter takes the value into the private slot and the attribute store is
   * untouched; any other key is an ordinary attribute write.
   */
  function Set(t: ModelType, s: Instance, key: string, value: Value): (s': Instance)
    ensures Enabled(t) && key == PasswordField ==> s'.attrs == s.attrs && s'.priv == value
    ensures !(Enabled(t) && key == PasswordField) ==> s'.priv == s.priv
    ensures !(Enabled(t) && key == PasswordField) ==> key in s'.attrs && s'.attrs[key] == value
    ensures s'.attrs - {key} == s.attrs - {key}
  {
    if Enabled(t) && key == PasswordField then Instance(s.attrs, value)
    else Instance(s.attrs[key := value], s.priv)
  }

  /**
   * `new Model(attributes)`: the constructor installs the virtual only when the
   * plugin is enabled, then hands the attributes to the host, so on an enabled
   * model a `password` attribute lands in the private slot instead of the store.
   */
  function Construct(t: ModelType, init: map<string, Value>): (s: Instance)
    ensures Enabled(t) ==> s.attrs == init - {PasswordField}
    ensures Enabled(t) ==> s.priv == (if PasswordField in init then init[PasswordField] else Undef)
    ensures !Enabled(t) ==> s.attrs == init && s.priv == Undef
  {
    if Enabled(t) then
      Instance(init - {PasswordField}, if PasswordField in init then init[PasswordField] else Undef)
    else
      Instance(init, Undef)
  }

  /**
   * The `saving` hook. It hashes the private slot with the model's rounds; only
   * when hashing settles does it unset `password` and, unless the outcome is
   * `undefined`, set the digest column to the outcome. Both calls go through
   * the host's `set`, so the unset reaches the virtual's setter and clears the
   * slot; when the column is `password` itself, the set reaches the setter too
   * and leaves the outcome in the slot. A model type without the plugin has no hook and a save leaves the
   * instance as it is.
   */
  function Saving(t: ModelType, s: Instance, draw: Outcome<nat>, bcrypt: Primitive): (r: Outcome<Instance>)
    ensures !Enabled(t) ==> r == Done(s)
    ensures r.Failed? ==> Enabled(t) && !IsEmpty(s.priv)
    ensures Enabled(t) && !IsEmpty(s.priv) ==>
      (r.Done? <==> draw.Done? && bcrypt.hash(s.priv.s, Salt(BcryptRounds(t), draw.value)).Done?)
    ensures r.Done? ==> r.value.attrs - {PasswordDigestField(t)} == s.attrs - {PasswordDigestField(t)}
    ensures Enabled(t) && r.Done? && PasswordDigestField(t) != PasswordField ==> r.value.priv == Undef
    ensures Enabled(t) && PasswordDigestField(t) == PasswordField && r.Done? ==> r.value.attrs == s.attrs
    ensures Enabled(t) && PasswordDigestField(t) == PasswordField && r.Done? ==>
      r.value.priv ==
        if s.priv == Null then Null
        else if IsEmpty(s.priv) then Undef
        else Str(bcrypt.hash(s.priv.s, Salt(BcryptRounds(t), draw.value)).value)
    ensures Enabled(t) && s.priv == Null && PasswordDigestField(t) != PasswordField ==>
      r.Done? && PasswordDigestField(t) in r.value.attrs && r.value.attrs[PasswordDigestField(t)] == Null
    ensures Enabled(t) && IsEmpty(s.priv) && s.priv != Null ==>
      r.Done? && SameAt(r.value.attrs, s.attrs, PasswordDigestField(t))
    ensures Enabled(t) && !IsEmpty(s.priv) && r.Done? && PasswordDigestField(t) != PasswordField ==>
      var field := PasswordDigestField(t);
      draw.Done? && field in r.value.attrs &&
      r.value.attrs[field] == Str(bcrypt.hash(s.priv.s, Salt(BcryptRounds(t), draw.value)).value)
  {
    if !Enabled(t) then Done(s)
    else
      match Hash(BcryptRounds(t), s.priv, draw, bcrypt)
      case Failed => Failed
      case Done(hashed) =>
        var unset := Set(t, s, PasswordField, Undef);
        Done(if hashed == Undef then unset else Set(t, unset, PasswordDigestField(t), hashed))
  }

  /** How `authenticate` settles. */
  datatype AuthOutcome<M> =
    | Resolved(model: M)                      // resolves to the model itself
    | Rejected(error: PasswordMismatchError)  // rejects with a PasswordMismatchError
    | CompareRejected                         // bcrypt.compare's own rejection, propagated as is
    | Fallback                                // delegated to the host's own authenticate

  /**
   * `model.authenticate(password)`, where `self` is the model and `attrs` its
   * attribute store. A disabled model delegates; an empty plaintext or an empty
   * or absent digest rejects without consulting bcrypt; otherwise the answer of
   * `compare` decides. Nothing is written.
   */
  function Authenticate<M>(t: ModelType, self: M, attrs: map<string, Value>, password: Value, bcrypt: Primitive): (r: AuthOutcome<M>)
    ensures r.Fallback? <==> !Enabled(t)
    ensures r.Resolved? ==> r.model == self
    ensures r.Rejected? ==> r.error == NewPasswordMismatchError(Undef)
    ensures Enabled(t) && (IsEmpty(password) || IsEmpty(Get(t, attrs, PasswordDigestField(t)))) ==> r.Rejected?
    ensures r.Resolved? <==>
      Enabled(t) && password.Str? && password.s != "" &&
      var digest := Get(t, attrs, PasswordDigestField(t));
      digest.Str? && digest.s != "" && bcrypt.compare(password.s, digest.s) == Done(true)
    ensures r.CompareRejected? <==>
      Enabled(t) && !IsEmpty(password) &&
      var digest := Get(t, attrs, PasswordDigestField(t));
      !IsEmpty(digest) && bcrypt.compare(password.s, digest.s).Failed?
  {
    var digest := Get(t, attrs, PasswordDigestField(t));
    if !Enabled(t) then Fallback
    else if IsEmpty(password) || IsEmpty(digest) then Rejected(NewPasswordMismatchError(Undef))
    else
      match bcrypt.compare(password.s, digest.s)
      case Failed => CompareRejected
      case Done(matches) => if matches then Resolved(self) else Rejected(NewPasswordMismatchError(Undef))
  }
}
