/** Cookie entries and the cookie jar of the framework (el/cookie.ts): a
    `Cookie` holds a value and a property record, and once it has a name and
    the response's `set` object every change is written through into
    `set.cookie[name]`; the jar hands out entries by name; `parseCookie`
    turns a request's cookie header into a jar, verifying signed cookies and
    coercing values. */
module Cookies {
  import opened Text
  import opened Js
  import opened CookieUtils

  // ---------------------------------------------------------------------
  // Property records and the response cookie map

  /** A property record (`CookieOptions`): an object that several entries, and the
      response's cookie map, may hold by reference. */
  class Attributes {
    var fields: map<string, JsValue>

    constructor (fields: map<string, JsValue>)
      ensures this.fields == fields
    {
      this.fields := fields;
    }
  }

  /** The response's `set` object; only its `cookie` map is modelled. */
  class Sink {
    var cookie: Option<map<string, Attributes>>

    constructor ()
      ensures cookie.None?
    {
      cookie := None;
    }
  }

  /** `record[key]`: `undefined` for a missing key. */
  function Lookup(fields: map<string, JsValue>, key: string): JsValue
  {
    if key in fields then fields[key] else Undefined
  }

  /** The entries of `set.cookie`, empty while it is unset. */
  function EntriesOf(cookie: Option<map<string, Attributes>>): map<string, Attributes>
  {
    if cookie.Some? then cookie.value else map[]
  }

  // ---------------------------------------------------------------------
  // Value comparison and string form

  /** `JSON.stringify(v)`: no text for `undefined`. */
  function JsonText(v: JsValue, rt: Runtime): Option<string>
  {
    if v.Undefined? then None else Some(rt.stringify(v))
  }

  /** The short-circuit of the `value` setter: an object is compared by its JSON text,
      anything else with `===`. */
  predicate SameValue(current: JsValue, next: JsValue, rt: Runtime)
  {
    if TypeofObject(next) then JsonText(current, rt) == JsonText(next, rt) else StrictEquals(current, next)
  }

  /** `toString()` of an entry with value `v`. */
  function ToString(v: JsValue, rt: Runtime): (s: string)
    ensures TypeofObject(v) ==> s == rt.stringify(v)
    ensures v.Undefined? ==> s == ""
    ensures v.Str? ==> s == v.s
    ensures v.Bool? ==> s == (if v.b then "true" else "false")
    ensures v.Number? ==> s == rt.numberToString(v.n)
  {
    if TypeofObject(v) then rt.stringify(v)
    else
      match v
      case Undefined => ""
      case Bool(b) => if b then "true" else "false"
      case Number(n) => rt.numberToString(n)
      case Str(s) => s
  }

  /** Comparing a value with itself short-circuits exactly when it is not NaN: an object
      by its JSON text, and a primitive by `===`. */
  lemma SameValueReflexive(v: JsValue, rt: Runtime)
    ensures SameValue(v, v, rt) <==> v != Number(NaN)
  {
  }

  // ---------------------------------------------------------------------
  // Attribute setters

  /** The attributes with a setter. */
  datatype Attribute = Domain | Expires | HttpOnly | MaxAge | Path | Priority | SameSite | Secure

  /** The property key an attribute is stored under. */
  function Key(a: Attribute): string
  {
    match a
    case Domain => "domain"
    case Expires => "expires"
    case HttpOnly => "httpOnly"
    case MaxAge => "maxAge"
    case Path => "path"
    case Priority => "priority"
    case SameSite => "sameSite"
    case Secure => "secure"
  }

  /** `v?.getTime()`: the time of a date, `undefined` otherwise. */
  function TimeOf(v: JsValue): JsValue
  {
    if v.Date? then Number(v.time) else Undefined
  }

  /** The key whose current value a setter compares with the new one: its own, except
      that the `httpOnly` setter compares against `domain`. */
  function GuardKey(a: Attribute): string
  {
    if a == HttpOnly then "domain" else Key(a)
  }

  /** Whether a setter returns early: `expires` compares times, the others use `===`. */
  predicate SetterSkips(a: Attribute, fields: map<string, JsValue>, value: JsValue)
  {
    if a == Expires then StrictEquals(TimeOf(Lookup(fields, "expires")), TimeOf(value))
    else StrictEquals(Lookup(fields, GuardKey(a)), value)
  }

  /** The early return with every setter comparing against its own attribute. */
  predicate SetterSkipsIntended(a: Attribute, fields: map<string, JsValue>, value: JsValue)
  {
    if a == Expires then StrictEquals(TimeOf(Lookup(fields, "expires")), TimeOf(value))
    else StrictEquals(Lookup(fields, Key(a)), value)
  }

  /** As written, `httpOnly` can be left `true` when it is set to `undefined`, because
      the setter finds `domain` already `undefined` and returns early. */
  lemma HttpOnlySkipsOnDomain()
    ensures var fields := map["httpOnly" := Bool(true)];
      SetterSkips(HttpOnly, fields, Undefined) && Lookup(fields, Key(HttpOnly)) != Undefined
  {
    assert "domain" !in map["httpOnly" := Bool(true)];
  }

  /** With every setter comparing its own attribute, an early return only happens when the
      attribute already holds the value (for `expires`, the same time). */
  lemma SetterSkipsIntendedIsNoChange(a: Attribute, fields: map<string, JsValue>, value: JsValue)
    requires SetterSkipsIntended(a, fields, value)
    ensures a != Expires ==> Lookup(fields, Key(a)) == value
    ensures a == Expires ==> TimeOf(Lookup(fields, "expires")) == TimeOf(value)
    ensures a == Expires ==> (Lookup(fields, "expires").Date? <==> value.Date?)
  {
  }

  /** The two comparisons differ only for `httpOnly`. */
  lemma SetterSkipsDiffersOnlyForHttpOnly(a: Attribute, fields: map<string, JsValue>, value: JsValue)
    requires a != HttpOnly
    ensures SetterSkips(a, fields, value) <==> SetterSkipsIntended(a, fields, value)
  {
  }

  // ---------------------------------------------------------------------
  // add, set, remove

  /** The argument of `add` and `set`: a record, or a function of the current record. */
  datatype Mutation =
    | Patch(config: map<string, JsValue>)
    | Derive(f: map<string, JsValue> -> map<string, JsValue>)

  /** The record `add(config)` leaves before `value` is taken out of it. */
  function AddedFields(fields: map<string, JsValue>, value: JsValue, config: Mutation): map<string, JsValue>
  {
    match config
    case Patch(m) => fields + m
    case Derive(f) =>
      var current := fields + OwnEntries(value);
      current + f(current)
  }

  /** The record `set(config)` installs before `value` is taken out of it. */
  function SetFields(fields: map<string, JsValue>, value: JsValue, config: Mutation): map<string, JsValue>
  {
    match config
    case Patch(m) => m
    case Derive(f) => f(fields + OwnEntries(value))
  }

  /** The value after a mutation: the record's `value` key when it has one. */
  function ValueAfter(updated: map<string, JsValue>, value: JsValue): JsValue
  {
    if "value" in updated then updated["value"] else value
  }

  /** The record `remove(options)` sets. */
  function RemovalConfig(options: map<string, JsValue>): (m: map<string, JsValue>)
    ensures m.Keys == {"domain", "expires", "maxAge", "path", "sameSite", "secure", "value"}
  {
    map[
      "domain" := Lookup(options, "domain"),
      "expires" := Date(Finite(0.0)),
      "maxAge" := Number(Finite(0.0)),
      "path" := Lookup(options, "path"),
      "sameSite" := Lookup(options, "sameSite"),
      "secure" := Lookup(options, "secure"),
      "value" := Str("")]
  }

  /** A patch that names `value` sets the value and leaves no `value` key behind. */
  lemma SetTakesValueOut(fields: map<string, JsValue>, value: JsValue, m: map<string, JsValue>)
    requires "value" in m
    ensures ValueAfter(SetFields(fields, value, Patch(m)), value) == m["value"]
    ensures "value" !in SetFields(fields, value, Patch(m)) - {"value"}
    ensures SetFields(fields, value, Patch(m)) - {"value"} == m - {"value"}
  {
  }

  /** `add` keeps every attribute the patch does not name, and `set` drops them. */
  lemma AddMergesSetReplaces(fields: map<string, JsValue>, value: JsValue, m: map<string, JsValue>, k: string)
    requires k in fields && k !in m
    ensures k in AddedFields(fields, value, Patch(m)) && AddedFields(fields, value, Patch(m))[k] == fields[k]
    ensures k !in SetFields(fields, value, Patch(m))
  {
  }

  /** After `remove`, the record holds an expired, empty cookie with only the four
      options taken over. */
  lemma RemovalRecord(options: map<string, JsValue>)
    ensures var m := RemovalConfig(options) - {"value"};
      m.Keys == {"domain", "expires", "maxAge", "path", "sameSite", "secure"} &&
      m["expires"] == Date(Finite(0.0)) && m["maxAge"] == Number(Finite(0.0)) &&
      m["domain"] == Lookup(options, "domain") && m["path"] == Lookup(options, "path") &&
      m["sameSite"] == Lookup(options, "sameSite") && m["secure"] == Lookup(options, "secure")
    ensures ValueAfter(RemovalConfig(options), Undefined) == Str("")
  {
  }

  // ---------------------------------------------------------------------
  // The entry

  /** One cookie entry. `rt` supplies `JSON.stringify` and `Number#toString`. */
  class Cookie {
    var name: Option<string>
    var setter: Sink?
    var value: JsValue
    var property: Attributes
    const rt: Runtime

    constructor (value: JsValue, property: Attributes, rt: Runtime)
      ensures this.value == value && this.property == property && this.rt == rt
      ensures name.None? && setter == null
    {
      this.value := value;
      this.property := property;
      this.rt := rt;
      name := None;
      setter := null;
    }

    /** Whether `sync` writes: a non-empty name and a `set` object. */
    predicate Bound()
      reads this
    {
      name.Some? && name.value != "" && setter != null
    }

    /** `set.cookie` as this entry sees it. */
    function CookieMap(): Option<map<string, Attributes>>
      reads this, setter
    {
      if setter == null then None else setter.cookie
    }

    /** The state `sync` leaves, starting from the cookie map `before` and the record
        fields `fields`: when bound, the record is stored under the name and carries the
        string form of the value; otherwise nothing changes. */
    ghost predicate SyncedFrom(before: Option<map<string, Attributes>>, fields: map<string, JsValue>)
      reads this, setter, property
    {
      if Bound() then
        CookieMap() == Some(EntriesOf(before)[name.value := property]) &&
        property.fields == fields["value" := Str(ToString(value, rt))]
      else
        CookieMap() == before && property.fields == fields
    }

    /** `sync()`. */
    method Sync()
      modifies setter, property
      ensures SyncedFrom(old(CookieMap()), old(property.fields))
    {
      if name.None? || name.value == "" || setter == null {
        return;
      }
      property.fields := property.fields["value" := Str(ToString(value, rt))];
      if setter.cookie.None? {
        setter.cookie := Some(map[name.value := property]);
      } else {
        setter.cookie := Some(setter.cookie.value[name.value := property]);
      }
    }

    /** The `value` setter: nothing happens when the new value is the same (by JSON text
        for objects); otherwise the value is replaced and synced. */
    method SetValue(v: JsValue)
      modifies this, setter, property
      ensures name == old(name) && setter == old(setter) && property == old(property)
      ensures SameValue(old(value), v, rt) ==> value == old(value) && CookieMap() == old(CookieMap()) && property.fields == old(property.fields)
      ensures !SameValue(old(value), v, rt) ==> value == v && SyncedFrom(old(CookieMap()), old(property.fields))
    {
      if TypeofObject(v) {
        if JsonText(value, rt) == JsonText(v, rt) {
          return;
        }
      } else if StrictEquals(value, v) {
        return;
      }
      value := v;
      Sync();
    }

    /** The setter of attribute `a`: nothing happens when it returns early; otherwise the
        attribute is replaced and synced. */
    method SetAttribute(a: Attribute, v: JsValue)
      modifies setter, property
      ensures SetterSkips(a, old(property.fields), v) ==> CookieMap() == old(CookieMap()) && property.fields == old(property.fields)
      ensures !SetterSkips(a, old(property.fields), v) ==> SyncedFrom(old(CookieMap()), old(property.fields)[Key(a) := v])
    {
      var current := property.fields;
      if a == Expires {
        if StrictEquals(TimeOf(Lookup(current, "expires")), TimeOf(v)) {
          return;
        }
      } else if StrictEquals(Lookup(current, GuardKey(a)), v) {
        return;
      }
      property.fields := property.fields[Key(a) := v];
      Sync();
    }

    /** `add(config)`: the record is updated in place, a `value` key moves into the value,
        and the entry is synced. */
    method Add(config: Mutation)
      modifies this, setter, property
      ensures name == old(name) && setter == old(setter) && property == old(property)
      ensures var updated := AddedFields(old(property.fields), old(value), config);
        value == ValueAfter(updated, old(value)) && SyncedFrom(old(CookieMap()), updated - {"value"})
    {
      if config.Derive? {
        property.fields := property.fields + OwnEntries(value);
        var derived := config.f(property.fields);
        property.fields := property.fields + derived;
      } else {
        property.fields := property.fields + config.config;
      }
      if "value" in property.fields {
        value := property.fields["value"];
        property.fields := property.fields - {"value"};
      }
      Sync();
    }

    /** `set(config)`: a new record replaces the old one (a derived record is computed
        after the value's entries are copied into the old record), a `value` key moves
        into the value, and the entry is synced. */
    method Set(config: Mutation)
      modifies this, setter, property
      ensures name == old(name) && setter == old(setter) && fresh(property)
      ensures config.Derive? ==> old(property).fields == old(property.fields) + OwnEntries(old(value))
      ensures config.Patch? ==> old(property).fields == old(property.fields)
      ensures var updated := SetFields(old(property.fields), old(value), config);
        value == ValueAfter(updated, old(value)) && SyncedFrom(old(CookieMap()), updated - {"value"})
    {
      var updated: Attributes;
      if config.Derive? {
        property.fields := property.fields + OwnEntries(value);
        updated := new Attributes(config.f(property.fields));
      } else {
        updated := new Attributes(config.config);
      }
      if "value" in updated.fields {
        value := updated.fields["value"];
        updated.fields := updated.fields - {"value"};
      }
      property := updated;
      Sync();
    }

    /** `remove(options)`: an entry without a value is left alone; otherwise it is set to
        an empty, expired cookie. */
    method Remove(options: map<string, JsValue>)
      modifies this, setter, property
      ensures old(value).Undefined? ==> value == old(value) && property == old(property) && unchanged(property) && CookieMap() == old(CookieMap())
      ensures !old(value).Undefined? ==>
        value == Str("") && fresh(property) && SyncedFrom(old(CookieMap()), RemovalConfig(options) - {"value"})
    {
      if value.Undefined? {
        return;
      }
      Set(Patch(RemovalConfig(options)));
    }
  }

  /** Once bound, an entry that is synced has its record in the cookie map under its name,
      and the record's `value` is the entry's string form. */
  lemma SyncedEntryIsVisible(c: Cookie, before: Option<map<string, Attributes>>, fields: map<string, JsValue>)
    requires c.Bound() && c.SyncedFrom(before, fields)
    ensures c.setter.cookie.Some? && c.name.value in c.setter.cookie.value
    ensures c.setter.cookie.value[c.name.value] == c.property
    ensures Lookup(c.property.fields, "value") == Str(ToString(c.value, c.rt))
  {
  }

  // ---------------------------------------------------------------------
  // The jar

  /** What may be stored under a jar key: an entry, or any other value. */
  datatype JarItem = AnEntry(entry: Cookie) | NotAnEntry(other: JsValue)

  /** The proxy `createCookieJar(initial, set, properties)`. */
  class CookieJar {
    var target: map<string, Cookie>
    const sink: Sink
    const defaults: Option<map<string, JsValue>>
    const rt: Runtime

    constructor (initial: map<string, Cookie>, sink: Sink, defaults: Option<map<string, JsValue>>, rt: Runtime)
      ensures target == initial && this.sink == sink && this.defaults == defaults && this.rt == rt
    {
      target := initial;
      this.sink := sink;
      this.defaults := defaults;
      this.rt := rt;
    }

    /** `jar[key]`: the stored entry, or a new unstored one named `key` without a value,
        with a copy of the default properties. The jar itself never changes. */
    method Get(key: string) returns (c: Cookie)
      ensures key in target ==> c == target[key]
      ensures key !in target ==>
        fresh(c) && fresh(c.property) && c.value.Undefined? && c.name == Some(key) && c.setter == sink &&
        c.property.fields == (if defaults.Some? then defaults.value else map[]) && c.rt == rt
    {
      if key in target {
        return target[key];
      }
      var property := new Attributes(if defaults.Some? then defaults.value else map[]);
      c := new Cookie(Undefined, property, rt);
      c.setter := sink;
      c.name := Some(key);
    }

    /** `jar[key] = value`: anything but an entry is refused; an entry is bound to the
        key and the response, synced, and stored. */
    method Set(key: string, item: JarItem) returns (ok: bool)
      modifies this, sink, if item.AnEntry? then {item.entry, item.entry.property} else {}
      ensures item.NotAnEntry? ==> !ok && target == old(target) && sink.cookie == old(sink.cookie)
      ensures item.AnEntry? ==> var c := item.entry;
        ok && target == old(target)[key := c] && c.name == Some(key) && c.setter == sink &&
        c.value == old(c.value) && c.property == old(c.property) &&
        c.SyncedFrom(Some(EntriesOf(old(sink.cookie))), old(c.property.fields))
    {
      if item.NotAnEntry? {
        return false;
      }
      var c := item.entry;
      if sink.cookie.None? {
        sink.cookie := Some(map[]);
      }
      c.setter := sink;
      c.name := Some(key);
      c.Sync();
      target := target[key := c];
      return true;
    }
  }

  // ---------------------------------------------------------------------
  // parseCookie

  /** The `secret` option. */
  datatype Secret = NoSecret | SecretText(text: string) | SecretList(list: seq<string>)

  /** The `sign` option: absent, `true`, one key, or a list of keys. */
  datatype SignOption = SignNone | SignAll | SignText(text: string) | SignList(keys: seq<string>)

  /** A non-empty single key becomes a one-key list; an empty one stays a string. */
  function NormalizeSign(sign: SignOption): SignOption
  {
    if sign.SignText? && sign.text != "" then SignList([sign.text]) else sign
  }

  /** `sign === true || sign?.includes(key)`, on the normalized option. */
  predicate IsSigned(sign: SignOption, key: string)
  {
    match sign
    case SignNone => false
    case SignAll => true
    case SignText(text) => Contains(text, key)
    case SignList(keys) => key in keys
  }

  /** After normalization a single key signs exactly that key (an empty one too, since
      `"".includes(key)` holds only for the empty key). */
  lemma SignTextSignsOnlyItself(text: string, key: string)
    ensures IsSigned(NormalizeSign(SignText(text)), key) <==> key == text
  {
    if text == "" && key != "" {
      assert !MatchAt("", key, 0);
    }
    if text == "" && key == "" {
      assert MatchAt("", "", 0);
    }
  }

  /** `!secret`. */
  predicate SecretMissing(secret: Secret)
  {
    secret.NoSecret? || secret == SecretText("")
  }

  /** The signature check of a signed cookie, as written: a single secret rejects an
      unsigned result that is loosely equal to `false`, and a list of secrets always
      rejects, because `fail` stays `true` on success. */
  function VerifySignature(key: string, raw: string, secret: Secret, rt: Runtime): Result<string>
  {
    if SecretMissing(secret) then Thrown(Failure("No secret is provided to cookie plugin"))
    else
      match secret
      case SecretText(s) =>
        (match Unsign(raw, Some(s), rt.hmac).value
         case None => Thrown(InvalidCookieSignature(key))
         case Some(v) => if LooselyEqualsFalse(v, rt.toNumber) then Thrown(InvalidCookieSignature(key)) else Ok(v))
      case SecretList(_) => Thrown(InvalidCookieSignature(key))
  }

  /** The value a signed cookie has under the first secret of `secrets` that verifies it. */
  function FirstVerified(raw: string, secrets: seq<string>, rt: Runtime): (r: Option<string>)
    ensures r.Some? ==> exists j :: 0 <= j < |secrets| && Unsign(raw, Some(secrets[j]), rt.hmac) == Ok(r)
    ensures r.None? ==> forall j :: 0 <= j < |secrets| ==> Unsign(raw, Some(secrets[j]), rt.hmac) == Ok(None)
  {
    if secrets == [] then None
    else
      var unsigned := Unsign(raw, Some(secrets[0]), rt.hmac).value;
      if unsigned.Some? then unsigned
      else
        var r := FirstVerified(raw, secrets[1..], rt);
        assert forall j :: 1 <= j < |secrets| ==> secrets[j] == secrets[1..][j - 1];
        r
  }

  /** The signature check as evidently intended: a single secret rejects only `false`,
      and a list of secrets accepts the first one that verifies. */
  function VerifySignatureIntended(key: string, raw: string, secret: Secret, rt: Runtime): Result<string>
  {
    if SecretMissing(secret) then Thrown(Failure("No secret is provided to cookie plugin"))
    else
      match secret
      case SecretText(s) =>
        (match Unsign(raw, Some(s), rt.hmac).value
         case None => Thrown(InvalidCookieSignature(key))
         case Some(v) => Ok(v))
      case SecretList(list) =>
        match FirstVerified(raw, list, rt)
        case None => Thrown(InvalidCookieSignature(key))
        case Some(v) => Ok(v)
  }

  /** The signature check of `parseCookie`, with its loop over a list of secrets. */
  method VerifySigned(key: string, raw: string, secret: Secret, rt: Runtime) returns (r: Result<string>)
    ensures r == VerifySignature(key, raw, secret, rt)
  {
    if secret.NoSecret? || secret == SecretText("") {
      return Thrown(Failure("No secret is provided to cookie plugin"));
    }
    if secret.SecretText? {
      var unsigned := Unsign(raw, Some(secret.text), rt.hmac).value;
      if unsigned.None? || LooselyEqualsFalse(unsigned.value, rt.toNumber) {
        return Thrown(InvalidCookieSignature(key));
      }
      return Ok(unsigned.value);
    }
    var secrets := secret.list;
    var value := raw;
    var fail := true;
    var j := 0;
    while j < |secrets|
      invariant j <= |secrets|
      invariant fail
    {
      var temp := Unsign(value, Some(secrets[j]), rt.hmac);
      if temp != Ok(None) {
        if temp.Ok? {
          value := temp.value.value;
        }
        fail := true;
        break;
      }
      j := j + 1;
    }
    if fail {
      return Thrown(InvalidCookieSignature(key));
    }
    return Ok(value);
  }

  /** What a cookie value becomes: parsed JSON for a value starting with `{` or `[` that
      parses, otherwise a number, a boolean, or the text itself. */
  datatype Decoded = Json(json: JsValue) | Plain(plain: JsValue)

  function Coerce(value: string, rt: Runtime): Decoded
  {
    if value != "" && (value[0] == '{' || value[0] == '[') && rt.parseJson(value).Some? then
      Json(rt.parseJson(value).value)
    else if IsNumericString(value, rt.toNumber, rt.numberToString) then Plain(Number(rt.toNumber(value)))
    else if value == "true" then Plain(Bool(true))
    else if value == "false" then Plain(Bool(false))
    else Plain(Str(value))
  }

  /** The value of a decoded cookie. */
  function ValueOf(d: Decoded): JsValue
  {
    if d.Json? then d.json else d.plain
  }

  /** The string form of a coerced value gives back the text for booleans, plain text,
      and numerals that print back as themselves (which `isNumericString` demands of
      16-character numerals). */
  lemma CoerceThenToString(value: string, rt: Runtime)
    requires Coerce(value, rt).Plain?
    requires IsNumericString(value, rt.toNumber, rt.numberToString) ==> rt.numberToString(rt.toNumber(value)) == value
    ensures ToString(ValueOf(Coerce(value, rt)), rt) == value
  {
  }

  /** One cookie of the header, as written. */
  function DecodeCookie(key: string, raw: string, secret: Secret, sign: SignOption, rt: Runtime): Result<Decoded>
  {
    if IsSigned(NormalizeSign(sign), key) then
      match VerifySignature(key, raw, secret, rt)
      case Thrown(e) => Thrown(e)
      case Ok(v) => Ok(Coerce(v, rt))
    else Ok(Coerce(raw, rt))
  }

  /** One cookie of the header, with the intended signature check. */
  function DecodeCookieIntended(key: string, raw: string, secret: Secret, sign: SignOption, rt: Runtime): Result<Decoded>
  {
    if IsSigned(NormalizeSign(sign), key) then
      match VerifySignatureIntended(key, raw, secret, rt)
      case Thrown(e) => Thrown(e)
      case Ok(v) => Ok(Coerce(v, rt))
    else Ok(Coerce(raw, rt))
  }

  /** The decoding `parseCookie` applies to each cookie of the header. */
  function Decoder(secret: Secret, sign: SignOption, rt: Runtime): (string, string) -> Result<Decoded>
  {
    (key, raw) => DecodeCookie(key, raw, secret, sign, rt)
  }

  /** All cookies of the header in order: the first failure, or every decoded value. */
  function DecodeAll(pairs: seq<(string, string)>, decode: (string, string) -> Result<Decoded>): Result<map<string, Decoded>>
  {
    if pairs == [] then Ok(map[])
    else
      match DecodeAll(pairs[..|pairs| - 1], decode)
      case Thrown(e) => Thrown(e)
      case Ok(m) =>
        var (key, raw) := pairs[|pairs| - 1];
        match decode(key, raw)
        case Thrown(e) => Thrown(e)
        case Ok(d) => Ok(m[key := d])
  }

  /** As written, a signed cookie checked against a list of secrets is always refused,
      even when the first secret signed it. */
  lemma SecretListAlwaysRejects(key: string, raw: string, secrets: seq<string>, sign: SignOption, rt: Runtime)
    requires IsSigned(NormalizeSign(sign), key)
    ensures DecodeCookie(key, raw, SecretList(secrets), sign, rt) == Thrown(InvalidCookieSignature(key))
  {
  }

  /** As written, a correctly signed value whose number is zero (such as `0` or the empty
      value) is refused as a bad signature. */
  lemma SignedZeroRejected(key: string, v: string, s: string, sign: SignOption, rt: Runtime)
    requires IsSigned(NormalizeSign(sign), key) && s != ""
    requires LooselyEqualsFalse(v, rt.toNumber)
    ensures DecodeCookie(key, Sign(v, Some(s), rt.hmac).value, SecretText(s), sign, rt) == Thrown(InvalidCookieSignature(key))
  {
    UnsignSign(v, s, rt.hmac);
  }

  /** With the intended check, a cookie signed with one secret is accepted with its value,
      and with a list of secrets it is accepted when any of them signed it. */
  lemma SignedCookieAccepted(key: string, v: string, s: string, sign: SignOption, rt: Runtime)
    requires IsSigned(NormalizeSign(sign), key) && s != ""
    ensures DecodeCookieIntended(key, Sign(v, Some(s), rt.hmac).value, SecretText(s), sign, rt) == Ok(Coerce(v, rt))
  {
    UnsignSign(v, s, rt.hmac);
  }

  lemma SignedCookieAcceptedByList(key: string, v: string, secrets: seq<string>, j: nat, sign: SignOption, rt: Runtime)
    requires IsSigned(NormalizeSign(sign), key) && j < |secrets|
    ensures DecodeCookieIntended(key, Sign(v, Some(secrets[j]), rt.hmac).value, SecretList(secrets), sign, rt) == Ok(Coerce(v, rt))
  {
    FirstVerifiedOfSigned(v, secrets, j, rt);
  }

  /** Whichever secret of the list verifies a signed text, the value is the one signed. */
  lemma FirstVerifiedOfSigned(v: string, secrets: seq<string>, j: nat, rt: Runtime)
    requires j < |secrets|
    ensures FirstVerified(Sign(v, Some(secrets[j]), rt.hmac).value, secrets, rt) == Some(v)
  {
    var raw := Sign(v, Some(secrets[j]), rt.hmac).value;
    UnsignSign(v, secrets[j], rt.hmac);
    var r := FirstVerified(raw, secrets, rt);
    assert r.Some?;
    var i :| 0 <= i < |secrets| && Unsign(raw, Some(secrets[i]), rt.hmac) == Ok(r);
    UnsignAcceptsOnlySigned(raw, secrets[i], rt.hmac);
    assert Sign(r.value, Some(secrets[i]), rt.hmac) == Ok(raw);
    LastDotOfSigned(r.value, secrets[i], rt.hmac);
    LastDotOfSigned(v, secrets[j], rt.hmac);
    assert |r.value| == |v|;
    assert r.value == raw[..|v|] == v;
  }

  /** The intended check refuses exactly the inputs no secret of the list signed. */
  lemma IntendedListRejectsUnsigned(key: string, raw: string, secrets: seq<string>, sign: SignOption, rt: Runtime)
    requires IsSigned(NormalizeSign(sign), key)
    requires forall j, v :: 0 <= j < |secrets| ==> Sign(v, Some(secrets[j]), rt.hmac) != Ok(raw)
    ensures DecodeCookieIntended(key, raw, SecretList(secrets), sign, rt) == Thrown(InvalidCookieSignature(key))
  {
    if FirstVerified(raw, secrets, rt).Some? {
      var r := FirstVerified(raw, secrets, rt);
      var i :| 0 <= i < |secrets| && Unsign(raw, Some(secrets[i]), rt.hmac) == Ok(r);
      UnsignAcceptsOnlySigned(raw, secrets[i], rt.hmac);
    }
  }

  /** Once a prefix of the header fails, the whole header fails the same way. */
  lemma {:induction false} DecodeAllKeepsFailure(pairs: seq<(string, string)>, n: nat, decode: (string, string) -> Result<Decoded>)
    requires n <= |pairs| && DecodeAll(pairs[..n], decode).Thrown?
    ensures DecodeAll(pairs, decode) == DecodeAll(pairs[..n], decode)
    decreases |pairs| - n
  {
    if n < |pairs| {
      var front := pairs[..|pairs| - 1];
      assert front[..n] == pairs[..n];
      DecodeAllKeepsFailure(front, n, decode);
    } else {
      assert pairs[..n] == pairs;
    }
  }

  /** Keys that occur once each, as the header parser yields them. */
  predicate DistinctKeys(pairs: seq<(string, string)>)
  {
    forall i, j :: 0 <= i < j < |pairs| ==> pairs[i].0 != pairs[j].0
  }

  /** The header decodes exactly when each of its cookies does. */
  lemma {:induction false} DecodeAllOk(pairs: seq<(string, string)>, decode: (string, string) -> Result<Decoded>)
    ensures DecodeAll(pairs, decode).Ok? <==>
      forall i :: 0 <= i < |pairs| ==> decode(pairs[i].0, pairs[i].1).Ok?
  {
    if pairs != [] {
      var n := |pairs| - 1;
      var front := pairs[..n];
      assert forall i :: 0 <= i < n ==> front[i] == pairs[i];
      DecodeAllOk(front, decode);
    }
  }

  /** The keys of the header, as a set. */
  function KeysOf(pairs: seq<(string, string)>): set<string>
  {
    set i | 0 <= i < |pairs| :: pairs[i].0
  }

  lemma KeysOfFront(pairs: seq<(string, string)>)
    requires pairs != []
    ensures KeysOf(pairs) == KeysOf(pairs[..|pairs| - 1]) + {pairs[|pairs| - 1].0}
  {
    var n := |pairs| - 1;
    forall x | x in KeysOf(pairs) ensures x in KeysOf(pairs[..n]) + {pairs[n].0} {
      var i :| 0 <= i < |pairs| && pairs[i].0 == x;
      if i < n {
        assert pairs[..n][i] == pairs[i];
      }
    }
    forall x | x in KeysOf(pairs[..n]) ensures x in KeysOf(pairs) {
      var i :| 0 <= i < n && pairs[..n][i].0 == x;
      assert pairs[i].0 == x;
    }
  }

  /** Decoding one more cookie of the header. */
  lemma DecodeAllExtend(pairs: seq<(string, string)>, i: nat, decode: (string, string) -> Result<Decoded>)
    requires i < |pairs| && DecodeAll(pairs[..i], decode).Ok?
    ensures DecodeAll(pairs[..i + 1], decode) ==
      match decode(pairs[i].0, pairs[i].1)
      case Thrown(e) => Thrown(e)
      case Ok(d) => Ok(DecodeAll(pairs[..i], decode).value[pairs[i].0 := d])
  {
    assert pairs[..i + 1][..i] == pairs[..i];
  }

  /** A decoded header is its front decoded, with its last cookie added. */
  lemma DecodeAllSnoc(pairs: seq<(string, string)>, decode: (string, string) -> Result<Decoded>)
    requires pairs != [] && DecodeAll(pairs, decode).Ok?
    ensures var n := |pairs| - 1;
      DecodeAll(pairs[..n], decode).Ok? && decode(pairs[n].0, pairs[n].1).Ok? &&
      DecodeAll(pairs, decode).value == DecodeAll(pairs[..n], decode).value[pairs[n].0 := decode(pairs[n].0, pairs[n].1).value]
  {
  }

  /** A decoded header has exactly the keys of the header. */
  lemma {:induction false} DecodeAllKeys(pairs: seq<(string, string)>, decode: (string, string) -> Result<Decoded>)
    requires DecodeAll(pairs, decode).Ok?
    ensures DecodeAll(pairs, decode).value.Keys == KeysOf(pairs)
  {
    if pairs != [] {
      DecodeAllSnoc(pairs, decode);
      DecodeAllKeys(pairs[..|pairs| - 1], decode);
      KeysOfFront(pairs);
    }
  }

  /** A decoded header maps every key of the header to its own cookie decoded on its own. */
  lemma {:induction false} DecodeAllEntries(pairs: seq<(string, string)>, decode: (string, string) -> Result<Decoded>)
    requires DistinctKeys(pairs) && DecodeAll(pairs, decode).Ok?
    ensures forall i :: 0 <= i < |pairs| ==>
      decode(pairs[i].0, pairs[i].1).Ok? && pairs[i].0 in DecodeAll(pairs, decode).value &&
      DecodeAll(pairs, decode).value[pairs[i].0] == decode(pairs[i].0, pairs[i].1).value
  {
    if pairs != [] {
      var n := |pairs| - 1;
      var front := pairs[..n];
      assert forall i :: 0 <= i < n ==> front[i] == pairs[i];
      DecodeAllSnoc(pairs, decode);
      DecodeAllEntries(front, decode);
      var m0 := DecodeAll(front, decode).value;
      var m := DecodeAll(pairs, decode).value;
      forall i | 0 <= i < |pairs|
        ensures decode(pairs[i].0, pairs[i].1).Ok? && pairs[i].0 in m && m[pairs[i].0] == decode(pairs[i].0, pairs[i].1).value
      {
        if i < n {
          assert front[i] == pairs[i];
          assert pairs[i].0 != pairs[n].0;
          assert pairs[i].0 in m0;
        }
      }
    }
  }

  /** The entries of a parsed jar match the decoded values: named and bound to the
      response, JSON values with their own empty record, every other value with the one
      shared record. */
  ghost predicate JarHolds(target: map<string, Cookie>, decoded: map<string, Decoded>, sink: Sink, shared: Attributes)
    reads set k | k in target :: target[k]
    reads set k | k in target :: target[k].property
  {
    target.Keys == decoded.Keys &&
    forall k :: k in target ==>
      target[k].name == Some(k) && target[k].setter == sink && target[k].value == ValueOf(decoded[k]) &&
      (decoded[k].Plain? ==> target[k].property == shared) &&
      (decoded[k].Json? ==> target[k].property != shared && target[k].property.fields == map[])
  }

  /** Adding an entry that matches its decoded value keeps the jar matching. */
  lemma JarHoldsExtend(jar: map<string, Cookie>, decoded: map<string, Decoded>, sink: Sink, shared: Attributes,
                       key: string, c: Cookie, d: Decoded)
    requires JarHolds(jar, decoded, sink, shared)
    requires c.name == Some(key) && c.setter == sink && c.value == ValueOf(d)
    requires d.Plain? ==> c.property == shared
    requires d.Json? ==> c.property != shared && c.property.fields == map[]
    ensures JarHolds(jar[key := c], decoded[key := d], sink, shared)
  {
  }

  /** The body of `parseCookie`'s loop up to the coercion: the signature check of a
      signed key, then the JSON attempt and the primitive coercion. */
  method DecodeOne(key: string, raw: string, secret: Secret, signOption: SignOption, ghost sign: SignOption, rt: Runtime)
    returns (r: Result<Decoded>)
    requires signOption == NormalizeSign(sign)
    ensures r == DecodeCookie(key, raw, secret, sign, rt)
  {
    var value := raw;
    if IsSigned(signOption, key) {
      var verified := VerifySigned(key, raw, secret, rt);
      if verified.Thrown? {
        return Thrown(verified.error);
      }
      value := verified.value;
    }
    if value != "" && (value[0] == '{' || value[0] == '[') {
      var parsed := rt.parseJson(value);
      if parsed.Some? {
        return Ok(Json(parsed.value));
      }
    }
    var coerced: JsValue;
    if IsNumericString(value, rt.toNumber, rt.numberToString) {
      coerced := Number(rt.toNumber(value));
    } else if value == "true" {
      coerced := Bool(true);
    } else if value == "false" {
      coerced := Bool(false);
    } else {
      coerced := Str(value);
    }
    return Ok(Plain(coerced));
  }

  /** The entry for a decoded cookie: a JSON value gets its own empty record, any other
      value the shared one; name and response are bound without syncing. */
  method NewEntry(key: string, d: Decoded, sink: Sink, common: Attributes, rt: Runtime) returns (c: Cookie)
    ensures fresh(c) && c.name == Some(key) && c.setter == sink && c.value == ValueOf(d) && c.rt == rt
    ensures d.Plain? ==> c.property == common
    ensures d.Json? ==> fresh(c.property) && c.property.fields == map[]
  {
    if d.Json? {
      var own := new Attributes(map[]);
      c := new Cookie(d.json, own, rt);
    } else {
      c := new Cookie(d.plain, common, rt);
    }
    c.setter := sink;
    c.name := Some(key);
  }

  /** The loop of `parseCookie` over the cookies of a non-empty header: the first
      failure, or the entries of the jar. */
  method FillJar(pairs: seq<(string, string)>, secret: Secret, signOption: SignOption, ghost sign: SignOption,
                 sink: Sink, common: Attributes, rt: Runtime)
    returns (r: Result<map<string, Cookie>>)
    requires signOption == NormalizeSign(sign)
    ensures var outcome := DecodeAll(pairs, Decoder(secret, sign, rt));
      (r.Thrown? <==> outcome.Thrown?) && (r.Thrown? ==> r.error == outcome.error) &&
      (r.Ok? ==>
        JarHolds(r.value, outcome.value, sink, common) &&
        forall k :: k in r.value ==> fresh(r.value[k]) && (r.value[k].property == common || fresh(r.value[k].property)))
  {
    var jar: map<string, Cookie> := map[];
    ghost var decoded: map<string, Decoded> := map[];
    for i := 0 to |pairs|
      invariant DecodeAll(pairs[..i], Decoder(secret, sign, rt)) == Ok(decoded)
      invariant JarHolds(jar, decoded, sink, common)
      invariant forall k :: k in jar ==> fresh(jar[k]) && (jar[k].property == common || fresh(jar[k].property))
    {
      var key := pairs[i].0;
      var d := DecodeOne(key, pairs[i].1, secret, signOption, sign, rt);
      assert Decoder(secret, sign, rt)(key, pairs[i].1) == d;
      DecodeAllExtend(pairs, i, Decoder(secret, sign, rt));
      if d.Thrown? {
        DecodeAllKeepsFailure(pairs, i + 1, Decoder(secret, sign, rt));
        return Thrown(d.error);
      }
      var cookie := NewEntry(key, d.value, sink, common, rt);
      JarHoldsExtend(jar, decoded, sink, common, key, cookie, d.value);
      jar := jar[key := cookie];
      decoded := decoded[key := d.value];
    }
    assert pairs[..|pairs|] == pairs;
    return Ok(jar);
  }

  /** `parseCookie(set, cookieString, { secret, sign, ...properties })`. */
  method ParseCookie(sink: Sink, cookieString: Option<string>, secret: Secret, sign: SignOption,
                     properties: map<string, JsValue>, rt: Runtime)
    returns (r: Result<CookieJar>, ghost shared: Attributes)
    ensures cookieString.None? || cookieString == Some("") ==>
      r.Ok? && fresh(r.value) && r.value.target == map[] && r.value.sink == sink &&
      r.value.defaults == Some(properties) && r.value.rt == rt
    ensures cookieString.Some? && cookieString.value != "" ==>
      var outcome := DecodeAll(rt.parseCookieHeader(cookieString.value), Decoder(secret, sign, rt));
      (r.Thrown? <==> outcome.Thrown?) && (r.Thrown? ==> r.error == outcome.error) &&
      (r.Ok? ==>
        fresh(r.value) && r.value.sink == sink && r.value.defaults.None? && r.value.rt == rt &&
        fresh(shared) && shared.fields == properties &&
        JarHolds(r.value.target, outcome.value, sink, shared) &&
        forall k :: k in r.value.target ==> fresh(r.value.target[k]) && fresh(r.value.target[k].property))
  {
    var common := new Attributes(properties);
    shared := common;
    if cookieString.None? || cookieString.value == "" {
      var empty := new CookieJar(map[], sink, Some(properties), rt);
      return Ok(empty), shared;
    }
    var signOption := NormalizeSign(sign);
    var filled := FillJar(rt.parseCookieHeader(cookieString.value), secret, signOption, sign, sink, common, rt);
    if filled.Thrown? {
      return Thrown(filled.error), shared;
    }
    var result := new CookieJar(filled.value, sink, None, rt);
    return Ok(result), shared;
  }
}
