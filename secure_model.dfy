/**
 * A model instance of a type that went through the plugin. Its constructor
 * runs the enable gate, the `password` virtual and the `saving` hook update the
 * instance in place, and each step is proved against module SecurePassword.
 */
module SecureModel {
  import opened JsValues
  import opened Bcrypt
  import opened FieldPolicy
  import opened PasswordHashing
  import SecurePassword

  class Model {
    const modelType: ModelType
    /** The host's attribute store. */
    var attrs: map<string, Value>
    /** The private slot `__password`. */
    var priv: Value
    /** Whether `virtuals.password` is installed. */
    var passwordVirtual: bool
    /** Whether a `saving` listener is registered, and the digest column it captured. */
    var savingHook: bool
    var hookField: string

    /** The gate ran: the virtual and the hook exist exactly when the plugin is enabled. */
    predicate Valid()
      reads this
    {
      && passwordVirtual == Enabled(modelType)
      && savingHook == Enabled(modelType)
      && (savingHook ==> hookField == PasswordDigestField(modelType))
    }

    /** The instance as module SecurePassword sees it. */
    function Snapshot(): SecurePassword.Instance
      reads this
    {
      SecurePassword.Instance(attrs, priv)
    }

    /** The model constructor: the enable gate, then the host's constructor with `init`. */
    constructor (t: ModelType, init: map<string, Value>)
      ensures Valid() && modelType == t
      ensures Snapshot() == SecurePassword.Construct(t, init)
    {
      modelType := t;
      attrs := map[];
      priv := Undef;
      passwordVirtual := false;
      savingHook := false;
      hookField := "";
      new;
      if Enabled(t) {
        EnablePasswordHashing();
      }
      if passwordVirtual {
        if PasswordField in init {
          SetPassword(init[PasswordField]);
        }
        attrs := init - {PasswordField};
      } else {
        attrs := init;
      }
    }

    /** `enablePasswordHashing(model)`: install the virtual and register the hook on the resolved column. */
    method EnablePasswordHashing()
      modifies this
      ensures passwordVirtual && savingHook && hookField == PasswordDigestField(modelType)
      ensures attrs == old(attrs) && priv == old(priv)
    {
      var field := PasswordDigestField(modelType);
      passwordVirtual := true;
      savingHook := true;
      hookField := field;
    }

    /** The virtual's setter: it writes the private slot and nothing else. */
    method SetPassword(value: Value)
      modifies this`priv
      ensures priv == value
    {
      priv := value;
    }

    /** `model.get(key)`. */
    function Get(key: string): (v: Value)
      reads this
      requires Valid()
      ensures passwordVirtual && key == PasswordField ==> v == Undef
      ensures !(passwordVirtual && key == PasswordField) && key in attrs ==> v == attrs[key]
      ensures v != Undef ==> key in attrs && attrs[key] == v
    {
      SecurePassword.Get(modelType, attrs, key)
    }

    /** `model.set(key, value)`, routed to the virtual's setter for `password`. */
    method Set(key: string, value: Value)
      requires Valid()
      modifies this
      ensures Valid()
      ensures Snapshot() == SecurePassword.Set(modelType, old(Snapshot()), key, value)
      ensures passwordVirtual == old(passwordVirtual) && savingHook == old(savingHook) && hookField == old(hookField)
    {
      if passwordVirtual && key == PasswordField {
        SetPassword(value);
      } else {
        attrs := attrs[key := value];
      }
    }

    /**
     * A save reaching the `saving` event. `ok` is false when the hook's promise
     * rejects, which aborts the save; the instance is then left as it was. On
     * success the hook's `unset` and `set` go through `Set`, as the host's do.
     */
    method Saving(draw: Outcome<nat>, bcrypt: Primitive) returns (ok: bool)
      requires Valid()
      modifies this
      ensures Valid()
      ensures passwordVirtual == old(passwordVirtual) && savingHook == old(savingHook) && hookField == old(hookField)
      ensures ok <==> SecurePassword.Saving(modelType, old(Snapshot()), draw, bcrypt).Done?
      ensures ok ==> Snapshot() == SecurePassword.Saving(modelType, old(Snapshot()), draw, bcrypt).value
      ensures !ok ==> Snapshot() == old(Snapshot())
    {
      if !savingHook {
        return true;
      }
      var value := priv;
      var hashed := Hash(BcryptRounds(modelType), value, draw, bcrypt);
      if hashed.Failed? {
        return false;
      }
      Set(PasswordField, Undef);
      if hashed.value != Undef {
        Set(hookField, hashed.value);
      }
      ok := true;
    }

    /** `model.authenticate(password)`: reads the digest through `get` and changes nothing. */
    function Authenticate(password: Value, bcrypt: Primitive): (r: SecurePassword.AuthOutcome<Model>)
      reads this
      requires Valid()
      ensures r.Resolved? ==> r.model == this
      ensures r.Fallback? <==> !passwordVirtual
      ensures r.Resolved? ==> Get(PasswordDigestField(modelType)).Str? && password.Str? && password.s != ""
      ensures r == SecurePassword.Authenticate(modelType, this, attrs, password, bcrypt)
    {
      SecurePassword.Authenticate(modelType, this, attrs, password, bcrypt)
    }
  }
}
