/**
 * The write path: `SensitiveAndEncryptWriteInterceptor`. Before a statement is
 * prepared, it computes new values for the parameter bean's fields (encrypt,
 * then mask, then mask inside JSON) and binds the changed ones as additional
 * parameters. The bean itself is never written.
 */
module WriteInterceptor {
  import opened Wrappers
  import opened Sensitive

  /** The statement's parameter object (`boundSql.getParameterObject()`). */
  datatype ParameterObject =
    | NullParameter
    | MapParameter(entries: map<string, Value>)                   // any java.util.Map
    | BeanParameter(cls: ClassInfo, properties: map<string, Value>) // a bean and its readable properties

  /**
   * MyBatis's `BoundSql`: the caller's parameter object, which this layer
   * never replaces, and the additional parameters that override it.
   */
  class BoundSql {
    const parameterObject: ParameterObject
    var additionalParameters: map<string, Value>

    constructor (p: ParameterObject)
      ensures parameterObject == p && additionalParameters == map[]
    {
      parameterObject := p;
      additionalParameters := map[];
    }

    method SetAdditionalParameter(name: string, value: Value)
      modifies this
      ensures additionalParameters == old(additionalParameters)[name := value]
    {
      additionalParameters := additionalParameters[name := value];
    }
  }

  /** Only UPDATE and INSERT statements mask. */
  predicate IsWriteCommand(cmd: SqlCommandType) {
    cmd == Update || cmd == Insert
  }

  /** `handleEncryptField`: encrypt `value.toString()` when the field carries `@EncryptField`. */
  function HandleEncryptField(env: Collaborators, tags: FieldTags, value: Value): Result<Value> {
    if tags.encryptField && value != Null then
      var cipher :- env.encrypt(ToString(value));
      Ok(Str(cipher))
    else
      Ok(value)
  }

  /** `handleSensitiveField`: apply the `@SensitiveField` strategy; its failure propagates. */
  function HandleSensitiveField(env: Collaborators, tags: FieldTags, value: Value): Result<Value> {
    if tags.sensitiveField.Some? && value != Null then
      var masked :- env.handle(tags.sensitiveField.value, value);
      Ok(StrOrNull(masked))
    else
      Ok(value)
  }

  /**
   * One `sensitivelist` entry: a key whose current value is non-null is
   * replaced by its mask; an absent or null key is left alone.
   */
  function MaskKey(env: Collaborators, m: map<string, Value>, k: SensitiveJSONFieldKey): Result<map<string, Value>> {
    var oldData := if k.key in m then m[k.key] else Null;
    if oldData != Null then
      var newData :- env.handle(k.kind, oldData);
      Ok(m[k.key := StrOrNull(newData)])
    else
      Ok(m)
  }

  /** The `sensitivelist` entries applied in order to the parsed JSON map. */
  function MaskKeys(env: Collaborators, m: map<string, Value>, keys: seq<SensitiveJSONFieldKey>): Result<map<string, Value>>
    decreases |keys|
  {
    if keys == [] then Ok(m)
    else
      var done :- MaskKeys(env, m, keys[..|keys| - 1]);
      MaskKey(env, done, keys[|keys| - 1])
  }

  /**
   * What `processJsonField` returns: the masked, re-serialised JSON, or the
   * input itself when parsing, masking or serialising throws.
   */
  function JsonMasked(env: Collaborators, keys: seq<SensitiveJSONFieldKey>, json: string): string {
    match env.parseToObjectMap(json)
    case Err(_) => json
    case Ok(parsed) =>
      match MaskKeys(env, parsed, keys)
      case Err(_) => json
      case Ok(masked) =>
        match env.parseMapToJSONString(masked)
        case Err(_) => json
        case Ok(out) => out
  }

  /** `handleSensitiveJSONField`: mask inside JSON when the field carries `@SensitiveJSONField`. */
  function HandleSensitiveJSONField(env: Collaborators, tags: FieldTags, value: Value): Value {
    if tags.sensitiveJSONField.Some? && value != Null then
      Str(JsonMasked(env, tags.sensitiveJSONField.value, ToString(value)))
    else
      value
  }

  /**
   * The new value of one field (the body of the field loop of
   * `handleParameters`): only strings are transformed; encryption always runs,
   * masking only for INSERT/UPDATE and only when the encrypted value is not
   * already recognised as masked.
   */
  function FieldNewValue(env: Collaborators, tags: FieldTags, cmd: SqlCommandType, value: Value): Result<Value> {
    if !value.Str? then Ok(value)
    else
      var encrypted :- HandleEncryptField(env, tags, value);
      if IsWriteCommand(cmd) && !env.alreadyBeSensitived(encrypted) then
        var masked :- HandleSensitiveField(env, tags, encrypted);
        Ok(HandleSensitiveJSONField(env, tags, masked))
      else
        Ok(encrypted)
  }

  /** A field enters the overlay when both values are non-null and differ. */
  predicate Changed(value: Value, newValue: Value) {
    value != Null && newValue != Null && value != newValue
  }

  /** The per-field transformation of one statement, as a function value. */
  function FieldTransform(env: Collaborators, cmd: SqlCommandType): (FieldTags, Value) -> Result<Value> {
    (tags, value) => FieldNewValue(env, tags, cmd, value)
  }

  /**
   * The `newValues` map of `handleParameters` after visiting `fields` in
   * order with the per-field transformation `transform`; `Err` when reading or
   * transforming a field throws.
   */
  function CollectChanged(fields: seq<Field>, properties: map<string, Value>, transform: (FieldTags, Value) -> Result<Value>): Result<map<string, Value>>
    decreases |fields|
  {
    if fields == [] then Ok(map[])
    else
      var newValues :- CollectChanged(fields[..|fields| - 1], properties, transform);
      var field := fields[|fields| - 1];
      var value :- GetValue(properties, field.name);
      var newValue :- transform(field.tags, value);
      if Changed(value, newValue) then Ok(newValues[field.name := newValue]) else Ok(newValues)
  }

  /** The overlay `handleParameters` binds for a bean of the given declared fields and properties. */
  function Overlay(env: Collaborators, fields: seq<Field>, properties: map<string, Value>, cmd: SqlCommandType): Result<map<string, Value>> {
    CollectChanged(fields, properties, FieldTransform(env, cmd))
  }

  // ---------------------------------------------------------------- methods

  /**
   * `processJsonField`: parse, `put` the mask of every configured non-null key,
   * re-serialise; on any exception return the input unchanged.
   */
  method ProcessJsonField(env: Collaborators, keys: seq<SensitiveJSONFieldKey>, json: string) returns (r: string)
    ensures r == JsonMasked(env, keys, json)
    ensures env.parseToObjectMap(json).Err? ==> r == json
    ensures env.parseToObjectMap(json).Ok? && MaskKeys(env, env.parseToObjectMap(json).value, keys).Err? ==> r == json
    ensures env.parseToObjectMap(json).Ok? && MaskKeys(env, env.parseToObjectMap(json).value, keys).Ok? ==>
      var out := env.parseMapToJSONString(MaskKeys(env, env.parseToObjectMap(json).value, keys).value);
      r == if out.Ok? then out.value else json
  {
    var parsed := env.parseToObjectMap(json);
    if parsed.Err? {
      return json;
    }
    var m := parsed.value;
    var i := 0;
    while i < |keys|
      invariant 0 <= i <= |keys|
      invariant MaskKeys(env, parsed.value, keys[..i]) == Ok(m)
    {
      var k := keys[i];
      assert keys[..i + 1][..i] == keys[..i];
      var oldData := if k.key in m then m[k.key] else Null;
      if oldData != Null {
        var newData := env.handle(k.kind, oldData);
        if newData.Err? {
          MaskKeysErrSticky(env, parsed.value, keys, i + 1);
          assert keys[..i + 1][..i] == keys[..i];
          return json;
        }
        m := m[k.key := StrOrNull(newData.value)];
      }
      i := i + 1;
    }
    assert keys[..|keys|] == keys;
    var out := env.parseMapToJSONString(m);
    if out.Err? {
      return json;
    }
    return out.value;
  }

  /**
   * The body of the field loop of `handleParameters` (lines 79-87): the new
   * value of one field, with `processJsonField` run as a loop.
   */
  method TransformField(env: Collaborators, tags: FieldTags, cmd: SqlCommandType, value: Value) returns (r: Result<Value>)
    ensures r == FieldNewValue(env, tags, cmd, value)
  {
    var newValue := value;
    if value.Str? {
      var encrypted := HandleEncryptField(env, tags, newValue);
      if encrypted.Err? {
        return Err(encrypted.message);
      }
      newValue := encrypted.value;
      if IsWriteCommand(cmd) && !env.alreadyBeSensitived(newValue) {
        var masked := HandleSensitiveField(env, tags, newValue);
        if masked.Err? {
          return Err(masked.message);
        }
        newValue := masked.value;
        if tags.sensitiveJSONField.Some? && newValue != Null {
          var json := ProcessJsonField(env, tags.sensitiveJSONField.value, ToString(newValue));
          newValue := Str(json);
        }
      }
    }
    return Ok(newValue);
  }

  /**
   * The first loop of `handleParameters`: visit the declared fields in order
   * and collect in `newValues` every field whose value changed.
   */
  method CollectNewValues(env: Collaborators, fields: seq<Field>, properties: map<string, Value>, cmd: SqlCommandType)
    returns (r: Result<map<string, Value>>)
    ensures r == Overlay(env, fields, properties, cmd)
    ensures r.Ok? ==> r.value.Keys <= Names(fields)
  {
    var newValues: map<string, Value> := map[];
    var i := 0;
    while i < |fields|
      invariant 0 <= i <= |fields|
      invariant CollectChanged(fields[..i], properties, FieldTransform(env, cmd)) == Ok(newValues)
      invariant newValues.Keys <= Names(fields[..i])
    {
      var field := fields[i];
      assert fields[..i + 1][..i] == fields[..i];
      assert fields[..i + 1][i] == field;
      if field.name !in properties {
        CollectErrSticky(fields, properties, FieldTransform(env, cmd), i + 1);
        return Err("There is no getter for property named '" + field.name + "'");
      }
      var value := properties[field.name];
      var newValue := TransformField(env, field.tags, cmd, value);
      if newValue.Err? {
        CollectErrSticky(fields, properties, FieldTransform(env, cmd), i + 1);
        return Err(newValue.message);
      }
      if Changed(value, newValue.value) {
        newValues := newValues[field.name := newValue.value];
      }
      i := i + 1;
    }
    assert fields[..|fields|] == fields;
    return Ok(newValues);
  }

  /**
   * `handleParameters`: collect the changed fields, then bind every entry as
   * an additional parameter. An exception while collecting binds nothing.
   */
  method HandleParameters(env: Collaborators, boundSql: BoundSql, cmd: SqlCommandType) returns (outcome: Result<()>)
    requires boundSql.parameterObject.BeanParameter?
    modifies boundSql
    ensures var expected := Overlay(env, boundSql.parameterObject.cls.declaredFields, boundSql.parameterObject.properties, cmd);
      && (outcome.Ok? <==> expected.Ok?)
      && boundSql.additionalParameters ==
           if expected.Ok? then old(boundSql.additionalParameters) + expected.value
           else old(boundSql.additionalParameters)
  {
    var collected := CollectNewValues(env, boundSql.parameterObject.cls.declaredFields, boundSql.parameterObject.properties, cmd);
    if collected.Err? {
      return Err(collected.message);
    }
    var newValues := collected.value;
    var pending := newValues.Keys;
    while pending != {}
      invariant pending <= newValues.Keys
      invariant boundSql.additionalParameters ==
        old(boundSql.additionalParameters) + map k | k in newValues.Keys - pending :: newValues[k]
      decreases pending
    {
      var k :| k in pending;
      boundSql.SetAdditionalParameter(k, newValues[k]);
      pending := pending - {k};
    }
    assert (map k | k in newValues.Keys - pending :: newValues[k]) == newValues;
    return Ok(());
  }

  /**
   * `intercept`: a `Map` parameter and a bean whose class is not enabled are
   * left alone; otherwise `handleParameters` runs and its exception, if any,
   * fails the statement.
   */
  method Intercept(env: Collaborators, boundSql: BoundSql, cmd: SqlCommandType) returns (outcome: Result<()>)
    modifies boundSql
    ensures !boundSql.parameterObject.BeanParameter? ==>
      outcome.Ok? && boundSql.additionalParameters == old(boundSql.additionalParameters)
    ensures boundSql.parameterObject.BeanParameter? && !IsEnabled(boundSql.parameterObject.cls) ==>
      outcome.Ok? && boundSql.additionalParameters == old(boundSql.additionalParameters)
    ensures boundSql.parameterObject.BeanParameter? && IsEnabled(boundSql.parameterObject.cls) ==>
      var expected := Overlay(env, boundSql.parameterObject.cls.declaredFields, boundSql.parameterObject.properties, cmd);
      && (outcome.Ok? <==> expected.Ok?)
      && boundSql.additionalParameters ==
           if expected.Ok? then old(boundSql.additionalParameters) + expected.value
           else old(boundSql.additionalParameters)
  {
    var params := boundSql.parameterObject;
    if params.MapParameter? {
      return Ok(());
    }
    if params.BeanParameter? && IsEnabled(params.cls) {
      outcome := HandleParameters(env, boundSql, cmd);
      return;
    }
    return Ok(());
  }

  // ----------------------------------------------------------------- lemmas

  /** Once a prefix of the `sensitivelist` throws, the whole list throws the same exception. */
  lemma {:induction false} MaskKeysErrSticky(env: Collaborators, m: map<string, Value>, keys: seq<SensitiveJSONFieldKey>, k: nat)
    requires k <= |keys|
    requires MaskKeys(env, m, keys[..k]).Err?
    ensures MaskKeys(env, m, keys) == MaskKeys(env, m, keys[..k])
    decreases |keys|
  {
    if k == |keys| {
      assert keys[..k] == keys;
    } else {
      var prefix := keys[..|keys| - 1];
      assert prefix[..k] == keys[..k];
      MaskKeysErrSticky(env, m, prefix, k);
    }
  }

  /** Once a prefix of the declared fields throws, the whole parameter throws the same exception. */
  lemma {:induction false} CollectErrSticky(fields: seq<Field>, properties: map<string, Value>, transform: (FieldTags, Value) -> Result<Value>, k: nat)
    requires k <= |fields|
    requires CollectChanged(fields[..k], properties, transform).Err?
    ensures CollectChanged(fields, properties, transform) == CollectChanged(fields[..k], properties, transform)
    decreases |fields|
  {
    if k == |fields| {
      assert fields[..k] == fields;
    } else {
      var prefix := fields[..|fields| - 1];
      assert prefix[..k] == fields[..k];
      CollectErrSticky(prefix, properties, transform, k);
    }
  }

  /** The JSON keys a `sensitivelist` names. */
  function KeyNames(keys: seq<SensitiveJSONFieldKey>): set<string> {
    set e | e in keys :: e.key
  }

  /** No JSON key is listed twice. */
  ghost predicate DistinctKeys(keys: seq<SensitiveJSONFieldKey>) {
    forall i, j :: 0 <= i < j < |keys| ==> keys[i].key != keys[j].key
  }

  /**
   * JSON masking adds and removes no key, leaves every key outside the
   * `sensitivelist` as it was, and leaves a null value null.
   */
  lemma {:induction false} MaskKeysFrame(env: Collaborators, m: map<string, Value>, keys: seq<SensitiveJSONFieldKey>)
    ensures MaskKeys(env, m, keys).Ok? ==>
      var r := MaskKeys(env, m, keys).value;
      && r.Keys == m.Keys
      && (forall k :: k in m && k !in KeyNames(keys) ==> r[k] == m[k])
      && (forall k :: k in m && m[k] == Null ==> r[k] == Null)
    decreases |keys|
  {
    if keys != [] {
      var prefix, last := keys[..|keys| - 1], keys[|keys| - 1];
      MaskKeysFrame(env, m, prefix);
      assert keys == prefix + [last];
      assert KeyNames(keys) == KeyNames(prefix) + {last.key};
    }
  }

  /** With distinct keys, the last key is not among the earlier ones. */
  lemma LastKeyIsNew(keys: seq<SensitiveJSONFieldKey>)
    requires DistinctKeys(keys) && keys != []
    ensures DistinctKeys(keys[..|keys| - 1])
    ensures keys[|keys| - 1].key !in KeyNames(keys[..|keys| - 1])
  {
    var prefix, last := keys[..|keys| - 1], keys[|keys| - 1];
    forall e | e in prefix ensures e.key != last.key {
      var i :| 0 <= i < |prefix| && prefix[i] == e;
      assert keys[i] == e;
    }
  }

  /**
   * With distinct keys, JSON masking succeeds exactly when the strategy of
   * every listed key whose parsed value is non-null succeeds.
   */
  lemma {:induction false} MaskKeysOkIff(env: Collaborators, m: map<string, Value>, keys: seq<SensitiveJSONFieldKey>)
    requires DistinctKeys(keys)
    ensures MaskKeys(env, m, keys).Ok? <==>
      forall e :: e in keys && e.key in m && m[e.key] != Null ==> env.handle(e.kind, m[e.key]).Ok?
    decreases |keys|
  {
    if keys != [] {
      var prefix, last := keys[..|keys| - 1], keys[|keys| - 1];
      assert keys == prefix + [last];
      LastKeyIsNew(keys);
      MaskKeysOkIff(env, m, prefix);
      var before := MaskKeys(env, m, prefix);
      if before.Err? {
        var e :| e in prefix && e.key in m && m[e.key] != Null && env.handle(e.kind, m[e.key]).Err?;
        assert e in keys;
      } else {
        MaskKeysFrame(env, m, prefix);
        assert last.key in before.value <==> last.key in m;
        assert last.key in m ==> before.value[last.key] == m[last.key];
        forall e | e in keys ensures e in prefix || e == last {
        }
      }
    }
  }

  /**
   * With distinct keys, every listed key whose parsed value is non-null ends
   * up holding exactly its strategy's mask of the parsed value.
   */
  lemma {:induction false} MaskKeysMasksListedKeys(env: Collaborators, m: map<string, Value>, keys: seq<SensitiveJSONFieldKey>)
    requires DistinctKeys(keys)
    ensures MaskKeys(env, m, keys).Ok? ==>
      forall e :: e in keys && e.key in m && m[e.key] != Null ==>
        && env.handle(e.kind, m[e.key]).Ok?
        && e.key in MaskKeys(env, m, keys).value
        && MaskKeys(env, m, keys).value[e.key] == StrOrNull(env.handle(e.kind, m[e.key]).value)
    decreases |keys|
  {
    if keys != [] && MaskKeys(env, m, keys).Ok? {
      var prefix, last := keys[..|keys| - 1], keys[|keys| - 1];
      assert keys == prefix + [last];
      LastKeyIsNew(keys);
      MaskKeysOkIff(env, m, keys);
      MaskKeysMasksListedKeys(env, m, prefix);
      MaskKeysFrame(env, m, prefix);
      var before := MaskKeys(env, m, prefix).value;
      var after := MaskKeys(env, m, keys).value;
      assert after == MaskKey(env, before, last).value;
      forall e | e in keys && e.key in m && m[e.key] != Null
        ensures env.handle(e.kind, m[e.key]).Ok?
        ensures e.key in after && after[e.key] == StrOrNull(env.handle(e.kind, m[e.key]).value)
      {
        if e == last {
          assert before[last.key] == m[last.key];
        } else {
          assert e in prefix;
          assert e.key != last.key;
        }
      }
    }
  }

  /** Collecting succeeds exactly when every declared field can be read and transformed. */
  lemma {:induction false} CollectOkIff(fields: seq<Field>, properties: map<string, Value>, transform: (FieldTags, Value) -> Result<Value>)
    ensures CollectChanged(fields, properties, transform).Ok? <==>
      forall f :: f in fields ==> f.name in properties && transform(f.tags, properties[f.name]).Ok?
    decreases |fields|
  {
    if fields != [] {
      var prefix, last := fields[..|fields| - 1], fields[|fields| - 1];
      CollectOkIff(prefix, properties, transform);
      assert fields == prefix + [last];
      forall f | f in fields ensures f in prefix || f == last {
      }
    }
  }

  /**
   * Field `f` is read and transformed without an exception, and it is in
   * `newValues` exactly when its original and new values are both non-null
   * and differ, mapped to its new value.
   */
  ghost predicate RecordedExactly(properties: map<string, Value>, transform: (FieldTags, Value) -> Result<Value>, newValues: map<string, Value>, f: Field) {
    && f.name in properties
    && transform(f.tags, properties[f.name]).Ok?
    && var value, newValue := properties[f.name], transform(f.tags, properties[f.name]).value;
       && (f.name in newValues <==> value != Null && newValue != Null && value != newValue)
       && (f.name in newValues ==> newValues[f.name] == newValue)
  }

  /** One step of collecting: the last declared field is read, transformed and recorded if changed. */
  lemma CollectStep(fields: seq<Field>, properties: map<string, Value>, transform: (FieldTags, Value) -> Result<Value>)
    requires fields != [] && CollectChanged(fields, properties, transform).Ok?
    ensures var prefix, last := fields[..|fields| - 1], fields[|fields| - 1];
      && CollectChanged(prefix, properties, transform).Ok?
      && last.name in properties
      && transform(last.tags, properties[last.name]).Ok?
      && var value, newValue := properties[last.name], transform(last.tags, properties[last.name]).value;
         CollectChanged(fields, properties, transform).value ==
           if Changed(value, newValue) then CollectChanged(prefix, properties, transform).value[last.name := newValue]
           else CollectChanged(prefix, properties, transform).value
  {
  }

  /** Only declared fields are collected. */
  lemma {:induction false} CollectKeys(fields: seq<Field>, properties: map<string, Value>, transform: (FieldTags, Value) -> Result<Value>)
    ensures CollectChanged(fields, properties, transform).Ok? ==>
      CollectChanged(fields, properties, transform).value.Keys <= Names(fields)
    decreases |fields|
  {
    if fields != [] && CollectChanged(fields, properties, transform).Ok? {
      var prefix, last := fields[..|fields| - 1], fields[|fields| - 1];
      CollectKeys(prefix, properties, transform);
      CollectStep(fields, properties, transform);
      assert fields == prefix + [last];
      forall n | n in CollectChanged(fields, properties, transform).value ensures n in Names(fields) {
        if n != last.name {
          var f :| f in prefix && f.name == n;
          assert f in fields;
        }
      }
    }
  }

  /**
   * With distinct field names, the collected map records every declared
   * field exactly: present when its original and new values are both
   * non-null and differ, mapped to its new value.
   */
  lemma {:induction false} CollectEntries(fields: seq<Field>, properties: map<string, Value>, transform: (FieldTags, Value) -> Result<Value>)
    requires DistinctNames(fields)
    ensures CollectChanged(fields, properties, transform).Ok? ==>
      forall f :: f in fields ==> RecordedExactly(properties, transform, CollectChanged(fields, properties, transform).value, f)
    decreases |fields|
  {
    if fields != [] && CollectChanged(fields, properties, transform).Ok? {
      var prefix, last := fields[..|fields| - 1], fields[|fields| - 1];
      assert DistinctNames(prefix);
      CollectEntries(prefix, properties, transform);
      assert fields == prefix + [last];
      forall f | f in fields ensures RecordedExactly(properties, transform, CollectChanged(fields, properties, transform).value, f) {
        if f != last {
          RecordedEarlierField(fields, properties, transform, f);
        } else {
          RecordedLastField(fields, properties, transform);
        }
      }
    }
  }

  /** The last declared field is recorded exactly, since no earlier field shares its name. */
  lemma RecordedLastField(fields: seq<Field>, properties: map<string, Value>, transform: (FieldTags, Value) -> Result<Value>)
    requires DistinctNames(fields)
    requires fields != [] && CollectChanged(fields, properties, transform).Ok?
    ensures RecordedExactly(properties, transform, CollectChanged(fields, properties, transform).value, fields[|fields| - 1])
  {
    var prefix, last := fields[..|fields| - 1], fields[|fields| - 1];
    CollectStep(fields, properties, transform);
    CollectKeys(prefix, properties, transform);
    forall g | g in prefix ensures g.name != last.name {
      var j :| 0 <= j < |prefix| && prefix[j] == g;
      assert fields[j] == g;
    }
    assert last.name !in Names(prefix);
  }

  /** An earlier declared field stays recorded exactly when the last one is visited. */
  lemma RecordedEarlierField(fields: seq<Field>, properties: map<string, Value>, transform: (FieldTags, Value) -> Result<Value>, f: Field)
    requires DistinctNames(fields)
    requires fields != [] && CollectChanged(fields, properties, transform).Ok?
    requires f in fields[..|fields| - 1]
    requires RecordedExactly(properties, transform, CollectChanged(fields[..|fields| - 1], properties, transform).value, f)
    ensures RecordedExactly(properties, transform, CollectChanged(fields, properties, transform).value, f)
  {
    var prefix, last := fields[..|fields| - 1], fields[|fields| - 1];
    CollectStep(fields, properties, transform);
    var i :| 0 <= i < |prefix| && prefix[i] == f;
    assert fields[i] == f;
    RecordedExactlyKept(properties, transform, CollectChanged(prefix, properties, transform).value,
                        CollectChanged(fields, properties, transform).value, last.name, f);
  }

  /** Recording a field of another name keeps what `newValues` says about `f`. */
  lemma RecordedExactlyKept(properties: map<string, Value>, transform: (FieldTags, Value) -> Result<Value>,
                            before: map<string, Value>, after: map<string, Value>, name: string, f: Field)
    requires RecordedExactly(properties, transform, before, f)
    requires f.name != name
    requires after == before || (name in after && after == before[name := after[name]])
    ensures RecordedExactly(properties, transform, after, f)
  {
  }

  /** Whether a write throws: exactly when some declared field cannot be read or transformed. */
  lemma OverlayOkIff(env: Collaborators, fields: seq<Field>, properties: map<string, Value>, cmd: SqlCommandType)
    ensures Overlay(env, fields, properties, cmd).Ok? <==>
      forall f :: f in fields ==> f.name in properties && FieldNewValue(env, f.tags, cmd, properties[f.name]).Ok?
  {
    CollectOkIff(fields, properties, FieldTransform(env, cmd));
  }

  /**
   * The overlay holds exactly the fields whose original and new values are
   * both non-null and differ, each mapped to its new value, and nothing else.
   */
  lemma OverlayEntries(env: Collaborators, fields: seq<Field>, properties: map<string, Value>, cmd: SqlCommandType)
    requires DistinctNames(fields)
    ensures Overlay(env, fields, properties, cmd).Ok? ==>
      var newValues := Overlay(env, fields, properties, cmd).value;
      && newValues.Keys <= Names(fields)
      && forall f :: f in fields ==>
           && f.name in properties
           && FieldNewValue(env, f.tags, cmd, properties[f.name]).Ok?
           && var value, newValue := properties[f.name], FieldNewValue(env, f.tags, cmd, properties[f.name]).value;
              && (f.name in newValues <==> value != Null && newValue != Null && value != newValue)
              && (f.name in newValues ==> newValues[f.name] == newValue)
  {
    CollectKeys(fields, properties, FieldTransform(env, cmd));
    CollectEntries(fields, properties, FieldTransform(env, cmd));
  }

  /** A field whose value is not a string never appears in the overlay. */
  lemma NonStringFieldsNotInOverlay(env: Collaborators, fields: seq<Field>, properties: map<string, Value>, cmd: SqlCommandType)
    requires DistinctNames(fields)
    ensures Overlay(env, fields, properties, cmd).Ok? ==>
      forall f :: f in fields && f.name in properties && !properties[f.name].Str? ==>
        f.name !in Overlay(env, fields, properties, cmd).value
  {
    OverlayEntries(env, fields, properties, cmd);
  }

  /**
   * Only strings are transformed, and a transformed string stays a string
   * or becomes null (a strategy may return null); nothing else is produced.
   */
  lemma FieldNewValueShape(env: Collaborators, tags: FieldTags, cmd: SqlCommandType, value: Value)
    ensures !value.Str? ==> FieldNewValue(env, tags, cmd, value) == Ok(value)
    ensures value.Str? && FieldNewValue(env, tags, cmd, value).Ok? ==>
      FieldNewValue(env, tags, cmd, value).value.Str? || FieldNewValue(env, tags, cmd, value).value == Null
  {
  }

  /** Every value the overlay binds is a non-null string. */
  lemma {:induction false} OverlayValuesAreStrings(env: Collaborators, fields: seq<Field>, properties: map<string, Value>, cmd: SqlCommandType)
    ensures Overlay(env, fields, properties, cmd).Ok? ==>
      forall name :: name in Overlay(env, fields, properties, cmd).value ==>
        Overlay(env, fields, properties, cmd).value[name].Str?
    decreases |fields|
  {
    if fields != [] && Overlay(env, fields, properties, cmd).Ok? {
      var prefix, last := fields[..|fields| - 1], fields[|fields| - 1];
      OverlayValuesAreStrings(env, prefix, properties, cmd);
      CollectStep(fields, properties, FieldTransform(env, cmd));
      var value := properties[last.name];
      FieldNewValueShape(env, last.tags, cmd, value);
      assert FieldTransform(env, cmd)(last.tags, value) == FieldNewValue(env, last.tags, cmd, value);
      var before := Overlay(env, prefix, properties, cmd).value;
      var after := Overlay(env, fields, properties, cmd).value;
      forall name | name in after ensures after[name].Str? {
        if name != last.name || !Changed(value, FieldNewValue(env, last.tags, cmd, value).value) {
          assert name in before;
        }
      }
    }
  }

  /**
   * An `@EncryptField` string whose encryption throws fails the whole write:
   * no overlay is produced, so nothing is bound.
   */
  lemma EncryptFailureFailsWrite(env: Collaborators, fields: seq<Field>, properties: map<string, Value>, cmd: SqlCommandType, f: Field)
    requires f in fields && f.tags.encryptField
    requires f.name in properties && properties[f.name].Str?
    requires env.encrypt(properties[f.name].s).Err?
    ensures Overlay(env, fields, properties, cmd).Err?
  {
    OverlayOkIff(env, fields, properties, cmd);
  }

  /**
   * Encryption applies to every command kind, SELECT and DELETE included;
   * for any command other than INSERT and UPDATE nothing but encryption
   * happens.
   */
  lemma EncryptionForEveryCommand(env: Collaborators, tags: FieldTags, cmd: SqlCommandType, s: string)
    ensures tags.encryptField && env.encrypt(s).Err? ==> FieldNewValue(env, tags, cmd, Str(s)).Err?
    ensures tags.encryptField && env.encrypt(s).Ok? && !IsWriteCommand(cmd) ==>
      FieldNewValue(env, tags, cmd, Str(s)) == Ok(Str(env.encrypt(s).value))
    ensures !tags.encryptField && !IsWriteCommand(cmd) ==> FieldNewValue(env, tags, cmd, Str(s)) == Ok(Str(s))
  {
  }

  /**
   * Masking (plain and JSON) is skipped when the post-encryption value is
   * already recognised as masked.
   */
  lemma AlreadyMaskedIsNotMasked(env: Collaborators, tags: FieldTags, cmd: SqlCommandType, s: string)
    ensures !tags.encryptField && env.alreadyBeSensitived(Str(s)) ==> FieldNewValue(env, tags, cmd, Str(s)) == Ok(Str(s))
    ensures tags.encryptField && env.encrypt(s).Ok? && env.alreadyBeSensitived(Str(env.encrypt(s).value)) ==>
      FieldNewValue(env, tags, cmd, Str(s)) == Ok(Str(env.encrypt(s).value))
  {
  }

  /**
   * A retried write does not mask twice: when every strategy output and
   * every serialised JSON is recognised as masked, transforming the output of
   * a transform of a field without `@EncryptField` gives it back unchanged.
   */
  lemma RetriedWriteDoesNotRemask(env: Collaborators, tags: FieldTags, cmd: SqlCommandType, value: Value, s: string)
    requires !tags.encryptField
    requires forall kind, v :: env.handle(kind, v).Ok? && env.handle(kind, v).value.Some? ==>
      env.alreadyBeSensitived(Str(env.handle(kind, v).value.value))
    requires forall m :: env.parseMapToJSONString(m).Ok? ==> env.alreadyBeSensitived(Str(env.parseMapToJSONString(m).value))
    requires FieldNewValue(env, tags, cmd, value) == Ok(Str(s))
    ensures FieldNewValue(env, tags, cmd, Str(s)) == Ok(Str(s))
  {
    var x := value.s;
    if IsWriteCommand(cmd) && !env.alreadyBeSensitived(Str(x)) {
      var masked := HandleSensitiveField(env, tags, Str(x)).value;
      if tags.sensitiveField.Some? {
        assert env.alreadyBeSensitived(masked);
        if tags.sensitiveJSONField.Some? {
          var keys := tags.sensitiveJSONField.value;
          if JsonMasked(env, keys, masked.s) != masked.s {
            var parsed := env.parseToObjectMap(masked.s).value;
            assert env.parseMapToJSONString(MaskKeys(env, parsed, keys).value).Ok?;
          }
        }
      } else if tags.sensitiveJSONField.Some? {
        var keys := tags.sensitiveJSONField.value;
        if JsonMasked(env, keys, x) != x {
          var parsed := env.parseToObjectMap(x).value;
          assert env.parseMapToJSONString(MaskKeys(env, parsed, keys).value).Ok?;
        }
      }
    }
  }
}
