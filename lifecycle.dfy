/**
 * Properties of an instance over a run of `set` calls and saves, and the
 * scenarios the plugin's tests describe, stated on module SecurePassword.
 */
module Lifecycle {
  import opened JsValues
  import opened Bcrypt
  import opened PasswordMismatch
  import opened FieldPolicy
  import opened PasswordHashing
  import opened SecurePassword

  /** One call on an instance: `model.set(key, value)`, or a save whose salt draw is `draw`. */
  datatype Op = SetOp(key: string, value: Value) | SaveOp(draw: Outcome<nat>)

  /** One call; a save whose hook rejects is aborted and leaves the instance as it was. */
  function Apply(t: ModelType, bcrypt: Primitive, s: Instance, op: Op): Instance {
    match op
    case SetOp(key, value) => Set(t, s, key, value)
    case SaveOp(draw) =>
      match Saving(t, s, draw, bcrypt)
      case Done(s') => s'
      case Failed => s
  }

  /** The calls of `ops`, in order. */
  function Run(t: ModelType, bcrypt: Primitive, s: Instance, ops: seq<Op>): Instance
    decreases |ops|
  {
    if ops == [] then s else Run(t, bcrypt, Apply(t, bcrypt, s, ops[0]), ops[1..])
  }

  /** Every call in `ops` assigns `password`. */
  predicate OnlyPasswordSets(ops: seq<Op>) {
    forall i | 0 <= i < |ops| :: ops[i].SetOp? && ops[i].key == PasswordField
  }

  /**
   * On an enabled model the plaintext never materialises as an attribute,
   * whatever sets and saves run.
   */
  lemma {:induction false} PasswordNeverStored(t: ModelType, bcrypt: Primitive, s: Instance, ops: seq<Op>)
    requires Enabled(t)
    requires PasswordField !in s.attrs
    ensures PasswordField !in Run(t, bcrypt, s, ops).attrs
    decreases |ops|
  {
    if ops != [] {
      var next := Apply(t, bcrypt, s, ops[0]);
      assert PasswordField !in next.attrs;
      PasswordNeverStored(t, bcrypt, next, ops[1..]);
    }
  }

  /** Every call in `ops` is a save. */
  predicate OnlySaves(ops: seq<Op>) {
    forall i | 0 <= i < |ops| :: ops[i].SaveOp?
  }

  /**
   * With an empty private slot a save hashes nothing and writes nothing, so
   * any number of saves leave the instance exactly as it was.
   */
  lemma {:induction false} IdleSaves(t: ModelType, bcrypt: Primitive, s: Instance, ops: seq<Op>)
    requires s.priv == Undef && OnlySaves(ops)
    ensures Run(t, bcrypt, s, ops) == s
    decreases |ops|
  {
    if ops != [] {
      assert Saving(t, s, ops[0].draw, bcrypt) == Done(s);
      IdleSaves(t, bcrypt, s, ops[1..]);
    }
  }

  /**
   * A successful save clears the private slot, so later saves without a new
   * assignment to `password` neither rehash nor touch the digest column.
   */
  lemma SavedThenIdle(t: ModelType, bcrypt: Primitive, s: Instance, draw: Outcome<nat>, ops: seq<Op>)
    requires Enabled(t) && PasswordDigestField(t) != PasswordField
    requires Saving(t, s, draw, bcrypt).Done? && OnlySaves(ops)
    ensures var saved := Saving(t, s, draw, bcrypt).value;
      saved.priv == Undef && Run(t, bcrypt, saved, ops) == saved
  {
    IdleSaves(t, bcrypt, Saving(t, s, draw, bcrypt).value, ops);
  }

  /** Assigning `password` any number of times, without saving, leaves the attribute store alone. */
  lemma {:induction false} PasswordSetsKeepAttributes(t: ModelType, bcrypt: Primitive, s: Instance, ops: seq<Op>)
    requires Enabled(t) && OnlyPasswordSets(ops)
    ensures Run(t, bcrypt, s, ops).attrs == s.attrs
    decreases |ops|
  {
    if ops != [] {
      var next := Apply(t, bcrypt, s, ops[0]);
      assert next.attrs == s.attrs;
      PasswordSetsKeepAttributes(t, bcrypt, next, ops[1..]);
    }
  }

  /**
   * A new enabled model built with a `password` attribute, and with
   * `password` assigned again any number of times, shows neither `password` nor the
   * digest column before it is saved, and so does not authenticate.
   */
  lemma NothingStoredBeforeSave(t: ModelType, bcrypt: Primitive, init: map<string, Value>, ops: seq<Op>, password: Value)
    requires Enabled(t) && OnlyPasswordSets(ops)
    requires PasswordDigestField(t) !in init
    ensures var s := Run(t, bcrypt, Construct(t, init), ops);
      && PasswordField !in s.attrs && Get(t, s.attrs, PasswordField) == Undef
      && PasswordDigestField(t) !in s.attrs && Get(t, s.attrs, PasswordDigestField(t)) == Undef
      && Authenticate(t, s, s.attrs, password, bcrypt) == Rejected(NewPasswordMismatchError(Undef))
  {
    PasswordSetsKeepAttributes(t, bcrypt, Construct(t, init), ops);
  }

  /**
   * Set a non-empty plaintext and save while bcrypt succeeds: the save goes
   * through, and with a sound bcrypt the model then authenticates with that
   * plaintext and resolves to itself, while a plaintext that `compare` rejects
   * as wrong fails with the default mismatch error.
   */
  lemma SetSaveAuthenticate(t: ModelType, bcrypt: Primitive, s: Instance, plain: string, draw: Outcome<nat>, wrong: string)
    requires Sound(bcrypt) && Enabled(t) && PasswordDigestField(t) != PasswordField && plain != ""
    requires draw.Done? && bcrypt.hash(plain, Salt(BcryptRounds(t), draw.value)).Done?
    ensures Saving(t, Set(t, s, PasswordField, Str(plain)), draw, bcrypt).Done?
    ensures var saved := Saving(t, Set(t, s, PasswordField, Str(plain)), draw, bcrypt).value;
      Authenticate(t, saved, saved.attrs, Str(plain), bcrypt) == Resolved(saved)
    ensures var saved := Saving(t, Set(t, s, PasswordField, Str(plain)), draw, bcrypt).value;
      var digest := Get(t, saved.attrs, PasswordDigestField(t));
      wrong != "" && digest.Str? && bcrypt.compare(wrong, digest.s) == Done(false) ==>
        Authenticate(t, saved, saved.attrs, Str(wrong), bcrypt) == Rejected(NewPasswordMismatchError(Undef))
  {
  }

  /** Saving after `password` is set to `null` clears the digest column, whatever bcrypt would do. */
  lemma NullClearsDigest(t: ModelType, bcrypt: Primitive, s: Instance, draw: Outcome<nat>)
    requires Enabled(t)
    ensures var r := Saving(t, Set(t, s, PasswordField, Null), draw, bcrypt);
      r.Done? && Get(t, r.value.attrs, PasswordDigestField(t)) == (if PasswordDigestField(t) == PasswordField then Undef else Null)
  {
  }

  /** Saving after `password` is set to `undefined` or `''` keeps the digest column as it was. */
  lemma EmptyKeepsDigest(t: ModelType, bcrypt: Primitive, s: Instance, draw: Outcome<nat>, empty: Value)
    requires Enabled(t)
    requires empty == Undef || empty == Str("")
    ensures var r := Saving(t, Set(t, s, PasswordField, empty), draw, bcrypt);
      r.Done? && Get(t, r.value.attrs, PasswordDigestField(t)) == Get(t, s.attrs, PasswordDigestField(t))
  {
  }

  /**
   * A whitespace-only plaintext is not empty: when bcrypt succeeds the save
   * goes through and stores bcrypt's digest of it.
   */
  lemma BlankIsHashed(t: ModelType, bcrypt: Primitive, s: Instance, draw: Outcome<nat>)
    requires Enabled(t) && PasswordDigestField(t) != PasswordField
    requires draw.Done? && bcrypt.hash("  ", Salt(BcryptRounds(t), draw.value)).Done?
    ensures var r := Saving(t, Set(t, s, PasswordField, Str("  ")), draw, bcrypt);
      r.Done? &&
      Get(t, r.value.attrs, PasswordDigestField(t)) == Str(bcrypt.hash("  ", Salt(BcryptRounds(t), draw.value)).value)
  {
  }

  /**
   * With `hasSecurePassword: 'custom_column'`, a save writes `custom_column`
   * and never touches `password_digest`.
   */
  lemma CustomColumnOnly(bcrypt: Primitive, s: Instance, draw: Outcome<nat>)
    ensures var t := ModelType(StrCfg("custom_column"), NotInt);
      var r := Saving(t, s, draw, bcrypt);
      r.Done? ==> SameAt(r.value.attrs, s.attrs, DefaultDigestField)
  {
  }

  /**
   * `bcryptRounds: 5` reaches the salt as 5, and an unset value as 12: when
   * bcrypt succeeds the stored digest is the hash under a salt of that cost.
   */
  lemma RoundsReachSalt(bcrypt: Primitive, s: Instance, draw: Outcome<nat>, cfgRounds: Rounds)
    requires cfgRounds == IntRounds(5) || cfgRounds == NotInt
    requires s.priv.Str? && s.priv.s != ""
    requires var cost := if cfgRounds == NotInt then 12 else 5;
      draw.Done? && bcrypt.hash(s.priv.s, Salt(cost, draw.value)).Done?
    ensures var r := Saving(ModelType(BoolCfg(true), cfgRounds), s, draw, bcrypt);
      var cost := if cfgRounds == NotInt then 12 else 5;
      r.Done? && DefaultDigestField in r.value.attrs &&
      r.value.attrs[DefaultDigestField] == Str(bcrypt.hash(s.priv.s, Salt(cost, draw.value)).value)
  {
  }

  /** A failed save (salt or hash generation rejected) changes no attribute and keeps the slot. */
  lemma FailedSaveChangesNothing(t: ModelType, bcrypt: Primitive, s: Instance, draw: Outcome<nat>)
    requires Saving(t, s, draw, bcrypt).Failed?
    ensures Apply(t, bcrypt, s, SaveOp(draw)) == s
    ensures Enabled(t) && !IsEmpty(s.priv)
  {
  }

  /**
   * The empty plaintext and the empty digest short-circuit: the outcome is the
   * same whatever bcrypt would answer, so `compare` is never consulted.
   */
  lemma ShortCircuitIgnoresCompare<M>(t: ModelType, self: M, attrs: map<string, Value>, password: Value, b1: Primitive, b2: Primitive)
    requires IsEmpty(password) || IsEmpty(Get(t, attrs, PasswordDigestField(t)))
    ensures Authenticate(t, self, attrs, password, b1) == Authenticate(t, self, attrs, password, b2)
    ensures !Authenticate(t, self, attrs, password, b1).Resolved?
  {
  }

  /**
   * A model type without the plugin keeps `password` as an ordinary attribute,
   * saves without hashing and delegates `authenticate`.
   */
  lemma DisabledIsInert(t: ModelType, bcrypt: Primitive, s: Instance, password: Value)
    requires !Enabled(t)
    ensures Get(t, Set(t, s, PasswordField, password).attrs, PasswordField) == password
    ensures Authenticate(t, s, s.attrs, password, bcrypt) == Fallback
    ensures forall draw :: Saving(t, s, draw, bcrypt) == Done(s)
  {
  }

  /**
   * `hasSecurePassword: 'password'` names the virtual itself as the digest
   * column: `get` then always answers through the virtual's getter, so such a
   * model never authenticates.
   */
  lemma PasswordNamedColumnNeverAuthenticates<M>(self: M, attrs: map<string, Value>, password: Value, bcrypt: Primitive, rounds: Rounds)
    ensures !Authenticate(ModelType(StrCfg(PasswordField), rounds), self, attrs, password, bcrypt).Resolved?
  {
  }
}
