/**
 * The read path: `DecryptReadInterceptor`. After MyBatis has materialised the
 * result rows, every row is rewritten in place: first each `@EncryptField`
 * property is decrypted, then each `@SensitiveBinded` property is set to the
 * mask of the property it is bound to.
 */
module ReadInterceptor {
  import opened Wrappers
  import opened Sensitive

  /** A materialised result row: its runtime class and its bean properties. */
  datatype ResultObject = ResultObject(cls: ClassInfo, properties: map<string, Value>)

  /** The properties of one row after a pass, and whether an exception escaped it. */
  datatype Step = Step(properties: map<string, Value>, thrown: bool)

  /** The rows after the row loop, and whether an exception escaped it. */
  datatype ReadResult = ReadResult(rows: seq<ResultObject>, thrown: bool)

  // ------------------------------------------------------------ field tags

  /** `getSensitiveByType`: the names of the declared fields carrying `@EncryptField`. */
  function EncryptFieldNames(fields: seq<Field>): set<string>
    decreases |fields|
  {
    if fields == [] then {}
    else
      var last := fields[|fields| - 1];
      EncryptFieldNames(fields[..|fields| - 1]) + if last.tags.encryptField then {last.name} else {}
  }

  /**
   * The `@SensitiveBinded` map: declared field name to its annotation, a
   * later `put` of the same name replacing an earlier one.
   */
  function BindedFields(fields: seq<Field>): map<string, SensitiveBinded>
    decreases |fields|
  {
    if fields == [] then map[]
    else
      var last := fields[|fields| - 1];
      var earlier := BindedFields(fields[..|fields| - 1]);
      if last.tags.sensitiveBinded.Some? then earlier[last.name := last.tags.sensitiveBinded.value] else earlier
  }

  /** `getSensitiveByResultMap`: empty without a result map, else the map of its type. */
  function SensitiveByResultMap(resultMapType: Option<ClassInfo>): set<string> {
    if resultMapType.None? then {} else EncryptFieldNames(resultMapType.value.declaredFields)
  }

  /** `getSensitiveBindedByResultMap`: empty without a result map, else the map of its type. */
  function SensitiveBindedByResultMap(resultMapType: Option<ClassInfo>): map<string, SensitiveBinded> {
    if resultMapType.None? then map[] else BindedFields(resultMapType.value.declaredFields)
  }

  /** No key is listed twice. */
  ghost predicate Distinct(order: seq<string>) {
    forall i, j :: 0 <= i < j < |order| ==> order[i] != order[j]
  }

  /** `order` lists every key of `keys` exactly once: one iteration order of a HashMap. */
  ghost predicate Enumerates(order: seq<string>, keys: set<string>) {
    Distinct(order) && forall k :: k in order <==> k in keys
  }

  // --------------------------------------------------------- decrypt pass

  /** The characters `Character.isWhitespace` accepts. */
  const JavaWhitespace: set<char> := {
    '\t', '\n', '\U{000B}', '\U{000C}', '\r', '\U{001C}', '\U{001D}', '\U{001E}', '\U{001F}',
    ' ', '\U{1680}', '\U{2000}', '\U{2001}', '\U{2002}', '\U{2003}', '\U{2004}', '\U{2005}',
    '\U{2006}', '\U{2008}', '\U{2009}', '\U{200A}', '\U{2028}', '\U{2029}', '\U{205F}', '\U{3000}'
  }

  /** `StringUtils.isBlank` on a non-null string: empty or whitespace only. */
  predicate IsBlank(s: string) {
    forall i :: 0 <= i < |s| ==> s[i] in JavaWhitespace
  }

  /** The gate in front of `decrypt`: non-blank and a whole number of 16-character blocks. */
  predicate Decryptable(s: string) {
    !IsBlank(s) && |s| % 16 == 0
  }

  /**
   * One `@EncryptField` property of one row. A missing property (no getter)
   * or a non-string value (the `(String)` cast) throws; a null, blank or
   * wrongly sized string is kept; a failed decryption keeps the stored value.
   */
  function DecryptProperty(env: Collaborators, properties: map<string, Value>, property: string): Step {
    if property !in properties then Step(properties, true)
    else
      match properties[property]
      case NonStr(_) => Step(properties, true)
      case Null => Step(properties, false)
      case Str(value) =>
        if !Decryptable(value) then Step(properties, false)
        else
          match env.decrypt(value)
          case Ok(decryptValue) => Step(properties[property := Str(decryptValue)], false)
          case Err(_) => Step(properties, false)
  }

  /** The decrypt loop of one row over the `@EncryptField` names in `order`; it stops at an exception. */
  function DecryptPass(env: Collaborators, properties: map<string, Value>, order: seq<string>): Step
    decreases |order|
  {
    if order == [] then Step(properties, false)
    else
      var before := DecryptPass(env, properties, order[..|order| - 1]);
      if before.thrown then before else DecryptProperty(env, before.properties, order[|order| - 1])
  }

  /** What decryption makes of one stored value, looked at by itself. */
  function DecryptedValue(env: Collaborators, v: Value): Value {
    if v.Str? && Decryptable(v.s) && env.decrypt(v.s).Ok? then Str(env.decrypt(v.s).value) else v
  }

  /** A property the decrypt loop cannot read: it throws. */
  predicate Unreadable(properties: map<string, Value>, property: string) {
    property !in properties || properties[property].NonStr?
  }

  // ------------------------------------------------------------ bind pass

  /**
   * One `@SensitiveBinded` property of one row: set `target` to the mask of
   * the bound property. Every failure (no such property, a non-string, the
   * strategy throwing, no setter for `target`) keeps the row as it was.
   */
  function DeriveBound(env: Collaborators, properties: map<string, Value>, target: string, b: SensitiveBinded): map<string, Value> {
    if b.bindField !in properties || properties[b.bindField].NonStr? then properties
    else
      match env.handle(b.kind, properties[b.bindField])
      case Err(_) => properties
      case Ok(resultValue) => if target in properties then properties[target := StrOrNull(resultValue)] else properties
  }

  /** The bind loop of one row over the `@SensitiveBinded` names in `order`. */
  function BindPass(env: Collaborators, properties: map<string, Value>, binded: map<string, SensitiveBinded>, order: seq<string>): map<string, Value>
    requires forall k :: k in order ==> k in binded
    decreases |order|
  {
    if order == [] then properties
    else
      var target := order[|order| - 1];
      DeriveBound(env, BindPass(env, properties, binded, order[..|order| - 1]), target, binded[target])
  }

  /** What the bound derivation writes into a target whose prior value is `prior`. */
  function DerivedValue(env: Collaborators, properties: map<string, Value>, b: SensitiveBinded, prior: Value): Value {
    if b.bindField !in properties || properties[b.bindField].NonStr? then prior
    else
      match env.handle(b.kind, properties[b.bindField])
      case Err(_) => prior
      case Ok(resultValue) => StrOrNull(resultValue)
  }

  /** No property a binding in `order` reads is itself a target in `order`. */
  ghost predicate NoChains(binded: map<string, SensitiveBinded>, order: seq<string>) {
    forall t :: t in order && t in binded ==> binded[t].bindField !in order
  }

  /** Reference for the decrypt loop, written without any iteration order. */
  function AfterDecrypt(env: Collaborators, properties: map<string, Value>, names: seq<string>): map<string, Value> {
    map p | p in properties :: if p in names then DecryptedValue(env, properties[p]) else properties[p]
  }

  /** Reference for the bind loop, written without any iteration order. */
  function AfterBind(env: Collaborators, properties: map<string, Value>, binded: map<string, SensitiveBinded>, targets: seq<string>): map<string, Value>
    requires forall k :: k in targets ==> k in binded
  {
    map p | p in properties :: if p in targets then DerivedValue(env, properties, binded[p], properties[p]) else properties[p]
  }

  // ------------------------------------------------------------ row loop

  /** One row: every decryption first, then every bound derivation. */
  function ProcessRow(env: Collaborators, properties: map<string, Value>, encOrder: seq<string>,
                      binded: map<string, SensitiveBinded>, bindOrder: seq<string>): Step
    requires forall k :: k in bindOrder ==> k in binded
  {
    var decrypted := DecryptPass(env, properties, encOrder);
    if decrypted.thrown then decrypted
    else Step(BindPass(env, decrypted.properties, binded, bindOrder), false)
  }

  /** The row loop: rows in order; after an exception the remaining rows are not touched. */
  function ProcessRows(env: Collaborators, rows: seq<ResultObject>, encOrder: seq<string>,
                       binded: map<string, SensitiveBinded>, bindOrder: seq<string>): ReadResult
    requires forall k :: k in bindOrder ==> k in binded
    decreases |rows|
  {
    if rows == [] then ReadResult([], false)
    else
      var before := ProcessRows(env, rows[..|rows| - 1], encOrder, binded, bindOrder);
      var last := rows[|rows| - 1];
      if before.thrown then ReadResult(before.rows + [last], true)
      else
        var step := ProcessRow(env, last.properties, encOrder, binded, bindOrder);
        ReadResult(before.rows + [last.(properties := step.properties)], step.thrown)
  }

  // --------------------------------------------------------------- methods

  /** `getSensitiveByType`: scan the declared fields and collect the `@EncryptField` names. */
  method GetSensitiveByType(cls: ClassInfo) returns (sensitiveFields: set<string>)
    ensures sensitiveFields == EncryptFieldNames(cls.declaredFields)
    ensures forall f :: f in cls.declaredFields && f.tags.encryptField ==> f.name in sensitiveFields
    ensures forall name :: name in sensitiveFields ==>
      exists f :: f in cls.declaredFields && f.name == name && f.tags.encryptField
  {
    var fields := cls.declaredFields;
    sensitiveFields := {};
    var i := 0;
    while i < |fields|
      invariant 0 <= i <= |fields|
      invariant sensitiveFields == EncryptFieldNames(fields[..i])
    {
      assert fields[..i + 1][..i] == fields[..i];
      if fields[i].tags.encryptField {
        sensitiveFields := sensitiveFields + {fields[i].name};
      }
      i := i + 1;
    }
    assert fields[..|fields|] == fields;
    EncryptFieldNamesExact(fields);
  }

  /** `getSensitiveByResultMap`. */
  method GetSensitiveByResultMap(resultMapType: Option<ClassInfo>) returns (sensitiveFields: set<string>)
    ensures sensitiveFields == SensitiveByResultMap(resultMapType)
    ensures resultMapType.None? ==> sensitiveFields == {}
  {
    if resultMapType.None? {
      return {};
    }
    sensitiveFields := GetSensitiveByType(resultMapType.value);
  }

  /** `getSensitiveBindedByResultMap`: scan the declared fields and collect the `@SensitiveBinded` ones. */
  method GetSensitiveBindedByResultMap(resultMapType: Option<ClassInfo>) returns (bindedFields: map<string, SensitiveBinded>)
    ensures bindedFields == SensitiveBindedByResultMap(resultMapType)
    ensures resultMapType.None? ==> bindedFields == map[]
    ensures resultMapType.Some? ==>
      forall f :: f in resultMapType.value.declaredFields && f.tags.sensitiveBinded.Some? ==> f.name in bindedFields
    ensures resultMapType.Some? ==>
      forall name :: name in bindedFields ==>
        exists f :: f in resultMapType.value.declaredFields && f.name == name && f.tags.sensitiveBinded == Some(bindedFields[name])
  {
    if resultMapType.None? {
      return map[];
    }
    var fields := resultMapType.value.declaredFields;
    bindedFields := map[];
    var i := 0;
    while i < |fields|
      invariant 0 <= i <= |fields|
      invariant bindedFields == BindedFields(fields[..i])
    {
      assert fields[..i + 1][..i] == fields[..i];
      if fields[i].tags.sensitiveBinded.Some? {
        bindedFields := bindedFields[fields[i].name := fields[i].tags.sensitiveBinded.value];
      }
      i := i + 1;
    }
    assert fields[..|fields|] == fields;
    BindedFieldsExact(fields);
  }

  /** `entrySet()` iteration: some order that lists every key once. */
  method EntrySetOrder(keys: set<string>) returns (order: seq<string>)
    ensures Enumerates(order, keys)
  {
    order := [];
    var pending := keys;
    while pending != {}
      invariant pending <= keys
      invariant Distinct(order)
      invariant forall k :: k in order <==> k in keys && k !in pending
      decreases pending
    {
      var k :| k in pending;
      order := order + [k];
      pending := pending - {k};
    }
  }

  /** The decrypt loop of one row. */
  method DecryptRow(env: Collaborators, properties: map<string, Value>, order: seq<string>) returns (r: Step)
    ensures r == DecryptPass(env, properties, order)
  {
    var props := properties;
    var j := 0;
    while j < |order|
      invariant 0 <= j <= |order|
      invariant DecryptPass(env, properties, order[..j]) == Step(props, false)
    {
      var property := order[j];
      assert order[..j + 1][..j] == order[..j];
      if property !in props || props[property].NonStr? {
        DecryptPassSticky(env, properties, order, j + 1);
        return Step(props, true);
      }
      var value := props[property];
      if value.Str? && !IsBlank(value.s) {
        if |value.s| % 16 == 0 {
          var decryptValue := env.decrypt(value.s);
          if decryptValue.Ok? {
            props := props[property := Str(decryptValue.value)];
          }
        }
      }
      j := j + 1;
    }
    assert order[..|order|] == order;
    return Step(props, false);
  }

  /** The bind loop of one row; every failure is swallowed. */
  method DeriveRow(env: Collaborators, properties: map<string, Value>, binded: map<string, SensitiveBinded>, order: seq<string>)
    returns (r: map<string, Value>)
    requires forall k :: k in order ==> k in binded
    ensures r == BindPass(env, properties, binded, order)
  {
    var props := properties;
    var j := 0;
    while j < |order|
      invariant 0 <= j <= |order|
      invariant BindPass(env, properties, binded, order[..j]) == props
    {
      var property := order[j];
      assert order[..j + 1][..j] == order[..j];
      var sensitiveBinded := binded[property];
      if sensitiveBinded.bindField in props && !props[sensitiveBinded.bindField].NonStr? {
        var resultValue := env.handle(sensitiveBinded.kind, props[sensitiveBinded.bindField]);
        if resultValue.Ok? && property in props {
          props := props[property := StrOrNull(resultValue.value)];
        }
      }
      j := j + 1;
    }
    assert order[..|order|] == order;
    return props;
  }

  /** The body of the row loop for one row: decrypt, then derive the bound properties. */
  method HandleRow(env: Collaborators, properties: map<string, Value>, encOrder: seq<string>,
                   binded: map<string, SensitiveBinded>, bindOrder: seq<string>) returns (r: Step)
    requires forall k :: k in bindOrder ==> k in binded
    ensures r == ProcessRow(env, properties, encOrder, binded, bindOrder)
  {
    var decrypted := DecryptRow(env, properties, encOrder);
    if decrypted.thrown {
      return decrypted;
    }
    var derived := DeriveRow(env, decrypted.properties, binded, bindOrder);
    return Step(derived, false);
  }

  /** The row loop: each row is rewritten in place; an exception leaves the later rows untouched. */
  method HandleRows(env: Collaborators, results: array<ResultObject>, encOrder: seq<string>,
                    binded: map<string, SensitiveBinded>, bindOrder: seq<string>) returns (thrown: bool)
    requires forall k :: k in bindOrder ==> k in binded
    modifies results
    ensures ProcessRows(env, old(results[..]), encOrder, binded, bindOrder) == ReadResult(results[..], thrown)
  {
    ghost var rows := results[..];
    var i := 0;
    while i < results.Length
      invariant 0 <= i <= results.Length
      invariant ProcessRows(env, rows[..i], encOrder, binded, bindOrder) == ReadResult(results[..i], false)
      invariant results[i..] == rows[i..]
    {
      assert rows[..i + 1][..i] == rows[..i];
      var row := results[i];
      assert row == rows[i];
      var step := HandleRow(env, row.properties, encOrder, binded, bindOrder);
      assert results[i + 1..] == rows[i + 1..];
      results[i] := row.(properties := step.properties);
      assert results[i + 1..] == rows[i + 1..];
      assert results[..i + 1] == results[..i] + [results[i]];
      if step.thrown {
        ProcessRowsStopped(env, rows, i + 1, encOrder, binded, bindOrder);
        assert results[..] == results[..i + 1] + rows[i + 1..];
        return true;
      }
      i := i + 1;
    }
    assert rows[..results.Length] == rows;
    assert results[..results.Length] == results[..];
    return false;
  }

  /**
   * `intercept`: rewrite the result rows in place. Nothing happens for an
   * empty list, when the first row's class is not enabled, or when the result
   * map's type has neither tag; otherwise every row is processed in order
   * with the two tag maps' iteration orders (`encOrder`, `bindOrder`), and an
   * exception stops the loop.
   */
  method Intercept(env: Collaborators, results: array<ResultObject>, resultMapType: Option<ClassInfo>)
    returns (outcome: Result<()>, encOrder: seq<string>, bindOrder: seq<string>)
    modifies results
    ensures results.Length == 0 ==> outcome.Ok?
    ensures results.Length > 0 && !IsEnabled(old(results[0]).cls) ==>
      outcome.Ok? && results[..] == old(results[..])
    ensures results.Length > 0 && IsEnabled(old(results[0]).cls) &&
            SensitiveByResultMap(resultMapType) == {} && SensitiveBindedByResultMap(resultMapType) == map[] ==>
      outcome.Ok? && results[..] == old(results[..])
    ensures results.Length > 0 && IsEnabled(old(results[0]).cls) &&
            (SensitiveByResultMap(resultMapType) != {} || SensitiveBindedByResultMap(resultMapType) != map[]) ==>
      && Enumerates(encOrder, SensitiveByResultMap(resultMapType))
      && Enumerates(bindOrder, SensitiveBindedByResultMap(resultMapType).Keys)
      && ProcessRows(env, old(results[..]), encOrder, SensitiveBindedByResultMap(resultMapType), bindOrder)
           == ReadResult(results[..], outcome.Err?)
  {
    encOrder, bindOrder := [], [];
    if results.Length == 0 {
      return Ok(()), encOrder, bindOrder;
    }
    var result0 := results[0];
    if !IsEnabled(result0.cls) {
      return Ok(()), encOrder, bindOrder;
    }
    var sensitiveFieldMap := GetSensitiveByResultMap(resultMapType);
    var sensitiveBindedMap := GetSensitiveBindedByResultMap(resultMapType);
    if sensitiveBindedMap == map[] && sensitiveFieldMap == {} {
      return Ok(()), encOrder, bindOrder;
    }
    encOrder := EntrySetOrder(sensitiveFieldMap);
    bindOrder := EntrySetOrder(sensitiveBindedMap.Keys);
    var thrown := HandleRows(env, results, encOrder, sensitiveBindedMap, bindOrder);
    outcome := if thrown then Err("property of an @EncryptField cannot be read as a String") else Ok(());
  }

  // ---------------------------------------------------------------- lemmas

  /** The `@EncryptField` map holds exactly the names of the declared fields carrying the annotation. */
  lemma {:induction false} EncryptFieldNamesExact(fields: seq<Field>)
    ensures forall f :: f in fields && f.tags.encryptField ==> f.name in EncryptFieldNames(fields)
    ensures forall name :: name in EncryptFieldNames(fields) ==>
      exists f :: f in fields && f.name == name && f.tags.encryptField
    decreases |fields|
  {
    if fields != [] {
      var prefix, last := fields[..|fields| - 1], fields[|fields| - 1];
      EncryptFieldNamesExact(prefix);
      assert fields == prefix + [last];
      forall name | name in EncryptFieldNames(fields)
        ensures exists f :: f in fields && f.name == name && f.tags.encryptField
      {
        if name in EncryptFieldNames(prefix) {
          var f :| f in prefix && f.name == name && f.tags.encryptField;
          assert f in fields;
        } else {
          assert last in fields && last.name == name && last.tags.encryptField;
        }
      }
    }
  }

  /**
   * The `@SensitiveBinded` map has a key for every declared field carrying
   * the annotation, and each key maps to the annotation of a declared field
   * of that name.
   */
  lemma {:induction false} BindedFieldsExact(fields: seq<Field>)
    ensures forall f :: f in fields && f.tags.sensitiveBinded.Some? ==> f.name in BindedFields(fields)
    ensures forall name :: name in BindedFields(fields) ==>
      exists f :: f in fields && f.name == name && f.tags.sensitiveBinded == Some(BindedFields(fields)[name])
    decreases |fields|
  {
    if fields != [] {
      var prefix, last := fields[..|fields| - 1], fields[|fields| - 1];
      BindedFieldsExact(prefix);
      assert fields == prefix + [last];
      var all := BindedFields(fields);
      forall name | name in all
        ensures exists f :: f in fields && f.name == name && f.tags.sensitiveBinded == Some(all[name])
      {
        if last.tags.sensitiveBinded.Some? && name == last.name {
          assert last in fields;
        } else {
          assert name in BindedFields(prefix) && all[name] == BindedFields(prefix)[name];
          var f :| f in prefix && f.name == name && f.tags.sensitiveBinded == Some(BindedFields(prefix)[name]);
          assert f in fields;
        }
      }
    }
  }

  /** Once a prefix of the decrypt loop throws, the whole pass ends in that state. */
  lemma {:induction false} DecryptPassSticky(env: Collaborators, properties: map<string, Value>, order: seq<string>, k: nat)
    requires k <= |order|
    requires DecryptPass(env, properties, order[..k]).thrown
    ensures DecryptPass(env, properties, order) == DecryptPass(env, properties, order[..k])
    decreases |order|
  {
    if k == |order| {
      assert order[..k] == order;
    } else {
      var prefix := order[..|order| - 1];
      assert prefix[..k] == order[..k];
      DecryptPassSticky(env, properties, prefix, k);
    }
  }

  /** Once a prefix of the rows throws, the remaining rows come back untouched. */
  lemma {:induction false} ProcessRowsStopped(env: Collaborators, rows: seq<ResultObject>, k: nat, encOrder: seq<string>,
                                              binded: map<string, SensitiveBinded>, bindOrder: seq<string>)
    requires forall key :: key in bindOrder ==> key in binded
    requires k <= |rows|
    requires ProcessRows(env, rows[..k], encOrder, binded, bindOrder).thrown
    ensures ProcessRows(env, rows, encOrder, binded, bindOrder)
      == ReadResult(ProcessRows(env, rows[..k], encOrder, binded, bindOrder).rows + rows[k..], true)
    decreases |rows|
  {
    if k == |rows| {
      assert rows[..k] == rows;
      assert rows[k..] == [];
    } else {
      var prefix := rows[..|rows| - 1];
      assert prefix[..k] == rows[..k];
      ProcessRowsStopped(env, prefix, k, encOrder, binded, bindOrder);
      assert prefix[k..] + [rows[|rows| - 1]] == rows[k..];
    }
  }

  /** Decryption never adds or removes a property, nor turns a string into a non-string. */
  lemma {:induction false} DecryptPassKeepsShape(env: Collaborators, properties: map<string, Value>, order: seq<string>)
    ensures DecryptPass(env, properties, order).properties.Keys == properties.Keys
    ensures forall p :: p in properties ==>
      (DecryptPass(env, properties, order).properties[p].NonStr? <==> properties[p].NonStr?)
    decreases |order|
  {
    if order != [] {
      DecryptPassKeepsShape(env, properties, order[..|order| - 1]);
    }
  }

  /** The decrypt loop of a row throws exactly when one of the names cannot be read as a string. */
  lemma {:induction false} DecryptPassThrowsIff(env: Collaborators, properties: map<string, Value>, order: seq<string>)
    ensures DecryptPass(env, properties, order).thrown <==> exists p :: p in order && Unreadable(properties, p)
    decreases |order|
  {
    if order != [] {
      var prefix, last := order[..|order| - 1], order[|order| - 1];
      assert order == prefix + [last];
      DecryptPassThrowsIff(env, properties, prefix);
      var before := DecryptPass(env, properties, prefix);
      if before.thrown {
        var p :| p in prefix && Unreadable(properties, p);
        assert p in order;
      } else {
        DecryptPassKeepsShape(env, properties, prefix);
        assert Unreadable(before.properties, last) <==> Unreadable(properties, last);
        assert DecryptPass(env, properties, order).thrown <==> Unreadable(properties, last);
        forall p | p in order && Unreadable(properties, p) ensures p == last {
          assert p in prefix || p == last;
        }
      }
    }
  }

  /**
   * With distinct, readable names the decrypt loop does not throw and its
   * result does not depend on the iteration order: every listed property is
   * decrypted by itself and every other property is kept.
   */
  lemma {:induction false} DecryptPassResult(env: Collaborators, properties: map<string, Value>, order: seq<string>)
    requires Distinct(order)
    requires forall p :: p in order ==> !Unreadable(properties, p)
    ensures DecryptPass(env, properties, order) == Step(AfterDecrypt(env, properties, order), false)
    decreases |order|
  {
    if order == [] {
      assert AfterDecrypt(env, properties, order) == properties;
    } else {
      var prefix, last := order[..|order| - 1], order[|order| - 1];
      assert order == prefix + [last];
      DecryptPassResult(env, properties, prefix);
      var before := AfterDecrypt(env, properties, prefix);
      assert last !in prefix by {
        forall i | 0 <= i < |prefix| ensures prefix[i] != last {
          assert order[i] != order[|order| - 1];
        }
      }
      assert last in order;
      assert before[last] == properties[last];
      var after := DecryptProperty(env, before, last);
      assert !after.thrown;
      assert after.properties == before[last := DecryptedValue(env, properties[last])];
      assert after.properties == AfterDecrypt(env, properties, order);
    }
  }

  /** A bound derivation never adds or removes a property. */
  lemma {:induction false} BindPassKeys(env: Collaborators, properties: map<string, Value>, binded: map<string, SensitiveBinded>, order: seq<string>)
    requires forall k :: k in order ==> k in binded
    ensures BindPass(env, properties, binded, order).Keys == properties.Keys
    decreases |order|
  {
    if order != [] {
      BindPassKeys(env, properties, binded, order[..|order| - 1]);
    }
  }

  /**
   * With distinct targets and no target read by another binding, the bind
   * loop's result does not depend on the iteration order: each target gets
   * the mask of its source as it stood before the loop, or keeps its value.
   */
  lemma {:induction false} BindPassResult(env: Collaborators, properties: map<string, Value>, binded: map<string, SensitiveBinded>, order: seq<string>)
    requires forall k :: k in order ==> k in binded
    requires Distinct(order) && NoChains(binded, order)
    ensures BindPass(env, properties, binded, order) == AfterBind(env, properties, binded, order)
    decreases |order|
  {
    if order == [] {
      assert AfterBind(env, properties, binded, order) == properties;
    } else {
      var prefix, target := order[..|order| - 1], order[|order| - 1];
      assert order == prefix + [target];
      BindPassResult(env, properties, binded, prefix);
      var before := AfterBind(env, properties, binded, prefix);
      var b := binded[target];
      assert target !in prefix by {
        forall i | 0 <= i < |prefix| ensures prefix[i] != target {
          assert order[i] != order[|order| - 1];
        }
      }
      assert b.bindField !in prefix;
      assert b.bindField in before <==> b.bindField in properties;
      assert b.bindField in before ==> before[b.bindField] == properties[b.bindField];
      assert target in before ==> before[target] == properties[target];
      assert DeriveBound(env, before, target, b) == AfterBind(env, properties, binded, order);
    }
  }

  /**
   * A row whose `@EncryptField` properties are all readable strings or
   * nulls: no exception, and the row becomes the bound derivation applied to
   * the decrypted row. A stored value the guard rejects stays as it was
   * unless it is a binding target.
   */
  lemma ProcessRowResult(env: Collaborators, properties: map<string, Value>, encOrder: seq<string>,
                         binded: map<string, SensitiveBinded>, bindOrder: seq<string>)
    requires forall k :: k in bindOrder ==> k in binded
    requires Distinct(encOrder) && Distinct(bindOrder) && NoChains(binded, bindOrder)
    requires forall p :: p in encOrder ==> !Unreadable(properties, p)
    ensures ProcessRow(env, properties, encOrder, binded, bindOrder)
      == Step(AfterBind(env, AfterDecrypt(env, properties, encOrder), binded, bindOrder), false)
    ensures forall p :: p in properties && p !in bindOrder && properties[p].Str? && !Decryptable(properties[p].s) ==>
      ProcessRow(env, properties, encOrder, binded, bindOrder).properties[p] == properties[p]
  {
    DecryptPassResult(env, properties, encOrder);
    BindPassResult(env, AfterDecrypt(env, properties, encOrder), binded, bindOrder);
  }

  /**
   * A bound property is masked from its source's DECRYPTED value: the bind
   * loop runs after the decrypt loop of the same row.
   */
  lemma BoundMaskSeesDecryptedSource(env: Collaborators, properties: map<string, Value>, encOrder: seq<string>,
                                     binded: map<string, SensitiveBinded>, bindOrder: seq<string>, target: string, o: Option<string>)
    requires forall k :: k in bindOrder ==> k in binded
    requires Distinct(encOrder) && Distinct(bindOrder) && NoChains(binded, bindOrder)
    requires forall p :: p in encOrder ==> !Unreadable(properties, p)
    requires target in bindOrder && target in properties
    requires binded[target].bindField in properties && !properties[binded[target].bindField].NonStr?
    requires env.handle(binded[target].kind, AfterDecrypt(env, properties, encOrder)[binded[target].bindField]) == Ok(o)
    ensures var after := ProcessRow(env, properties, encOrder, binded, bindOrder).properties;
      target in after && after[target] == StrOrNull(o)
  {
    ProcessRowResult(env, properties, encOrder, binded, bindOrder);
  }

  /** Two iteration orders of the same tag maps give the same row. */
  lemma ProcessRowOrderIndependent(env: Collaborators, properties: map<string, Value>,
                                   binded: map<string, SensitiveBinded>, encrypted: set<string>,
                                   encOrder1: seq<string>, encOrder2: seq<string>, bindOrder1: seq<string>, bindOrder2: seq<string>)
    requires Enumerates(encOrder1, encrypted) && Enumerates(encOrder2, encrypted)
    requires Enumerates(bindOrder1, binded.Keys) && Enumerates(bindOrder2, binded.Keys)
    requires NoChains(binded, bindOrder1)
    requires forall p :: p in encrypted ==> !Unreadable(properties, p)
    ensures ProcessRow(env, properties, encOrder1, binded, bindOrder1) == ProcessRow(env, properties, encOrder2, binded, bindOrder2)
  {
    ProcessRowResult(env, properties, encOrder1, binded, bindOrder1);
    ProcessRowResult(env, properties, encOrder2, binded, bindOrder2);
    assert AfterDecrypt(env, properties, encOrder1) == AfterDecrypt(env, properties, encOrder2);
    var decrypted := AfterDecrypt(env, properties, encOrder1);
    assert AfterBind(env, decrypted, binded, bindOrder1) == AfterBind(env, decrypted, binded, bindOrder2);
  }

  /** One row throws exactly when one of its `@EncryptField` properties cannot be read as a string. */
  lemma ProcessRowThrowsIff(env: Collaborators, properties: map<string, Value>, encOrder: seq<string>,
                            binded: map<string, SensitiveBinded>, bindOrder: seq<string>)
    requires forall k :: k in bindOrder ==> k in binded
    ensures ProcessRow(env, properties, encOrder, binded, bindOrder).thrown <==>
      exists p :: p in encOrder && Unreadable(properties, p)
    ensures ProcessRow(env, properties, encOrder, binded, bindOrder).properties.Keys == properties.Keys
  {
    DecryptPassThrowsIff(env, properties, encOrder);
    DecryptPassKeepsShape(env, properties, encOrder);
    BindPassKeys(env, DecryptPass(env, properties, encOrder).properties, binded, bindOrder);
  }

  /** The row loop keeps the number of rows, each row's class and each row's property names. */
  lemma {:induction false} ProcessRowsShape(env: Collaborators, rows: seq<ResultObject>, encOrder: seq<string>,
                                            binded: map<string, SensitiveBinded>, bindOrder: seq<string>)
    requires forall k :: k in bindOrder ==> k in binded
    ensures |ProcessRows(env, rows, encOrder, binded, bindOrder).rows| == |rows|
    ensures forall i :: 0 <= i < |rows| ==>
      && ProcessRows(env, rows, encOrder, binded, bindOrder).rows[i].cls == rows[i].cls
      && ProcessRows(env, rows, encOrder, binded, bindOrder).rows[i].properties.Keys == rows[i].properties.Keys
    decreases |rows|
  {
    if rows != [] {
      var last := rows[|rows| - 1];
      ProcessRowsShape(env, rows[..|rows| - 1], encOrder, binded, bindOrder);
      ProcessRowThrowsIff(env, last.properties, encOrder, binded, bindOrder);
    }
  }

  /** The row loop throws exactly when some row has an unreadable `@EncryptField` property. */
  lemma {:induction false} ProcessRowsThrowsIff(env: Collaborators, rows: seq<ResultObject>, encOrder: seq<string>,
                                                binded: map<string, SensitiveBinded>, bindOrder: seq<string>)
    requires forall k :: k in bindOrder ==> k in binded
    ensures ProcessRows(env, rows, encOrder, binded, bindOrder).thrown <==>
      exists i, p :: 0 <= i < |rows| && p in encOrder && Unreadable(rows[i].properties, p)
    decreases |rows|
  {
    if rows != [] {
      var prefix, last := rows[..|rows| - 1], rows[|rows| - 1];
      ProcessRowsThrowsIff(env, prefix, encOrder, binded, bindOrder);
      ProcessRowThrowsIff(env, last.properties, encOrder, binded, bindOrder);
      if exists i, p :: 0 <= i < |rows| && p in encOrder && Unreadable(rows[i].properties, p) {
        var i, p :| 0 <= i < |rows| && p in encOrder && Unreadable(rows[i].properties, p);
        if i < |prefix| {
          assert prefix[i] == rows[i];
        }
      }
      if exists i, p :: 0 <= i < |prefix| && p in encOrder && Unreadable(prefix[i].properties, p) {
        var i, p :| 0 <= i < |prefix| && p in encOrder && Unreadable(prefix[i].properties, p);
        assert rows[i] == prefix[i];
      }
    }
  }

  /** When nothing throws, every row is processed by itself. */
  lemma {:induction false} ProcessRowsComplete(env: Collaborators, rows: seq<ResultObject>, encOrder: seq<string>,
                                               binded: map<string, SensitiveBinded>, bindOrder: seq<string>)
    requires forall k :: k in bindOrder ==> k in binded
    requires !ProcessRows(env, rows, encOrder, binded, bindOrder).thrown
    ensures |ProcessRows(env, rows, encOrder, binded, bindOrder).rows| == |rows|
    ensures forall i :: 0 <= i < |rows| ==>
      ProcessRows(env, rows, encOrder, binded, bindOrder).rows[i]
        == rows[i].(properties := ProcessRow(env, rows[i].properties, encOrder, binded, bindOrder).properties)
    decreases |rows|
  {
    if rows != [] {
      var prefix := rows[..|rows| - 1];
      ProcessRowsComplete(env, prefix, encOrder, binded, bindOrder);
      forall i | 0 <= i < |prefix| ensures rows[i] == prefix[i] { }
    }
  }

  /** The decrypt loop changes no property outside `order`. */
  lemma {:induction false} DecryptPassFrame(env: Collaborators, properties: map<string, Value>, order: seq<string>)
    ensures forall p :: p in properties && p !in order ==>
      p in DecryptPass(env, properties, order).properties && DecryptPass(env, properties, order).properties[p] == properties[p]
    decreases |order|
  {
    if order != [] {
      var prefix := order[..|order| - 1];
      DecryptPassFrame(env, properties, prefix);
      assert forall p :: p in prefix ==> p in order;
    }
  }

  /** The bind loop changes no property outside `order`. */
  lemma {:induction false} BindPassFrame(env: Collaborators, properties: map<string, Value>, binded: map<string, SensitiveBinded>, order: seq<string>)
    requires forall k :: k in order ==> k in binded
    ensures forall p :: p in properties && p !in order ==>
      p in BindPass(env, properties, binded, order) && BindPass(env, properties, binded, order)[p] == properties[p]
    decreases |order|
  {
    if order != [] {
      var prefix := order[..|order| - 1];
      BindPassFrame(env, properties, binded, prefix);
      assert forall p :: p in prefix ==> p in order;
    }
  }

  /**
   * A failed bound derivation (the source cannot be read as a string, or the
   * strategy throws) leaves the target with its value after decryption.
   */
  lemma FailedDerivationKeepsValue(env: Collaborators, properties: map<string, Value>, encOrder: seq<string>,
                                   binded: map<string, SensitiveBinded>, bindOrder: seq<string>, target: string)
    requires forall k :: k in bindOrder ==> k in binded
    requires Distinct(encOrder) && Distinct(bindOrder) && NoChains(binded, bindOrder)
    requires forall p :: p in encOrder ==> !Unreadable(properties, p)
    requires target in bindOrder && target in properties
    requires var source := binded[target].bindField;
      || source !in properties
      || properties[source].NonStr?
      || env.handle(binded[target].kind, AfterDecrypt(env, properties, encOrder)[source]).Err?
    ensures var after := ProcessRow(env, properties, encOrder, binded, bindOrder).properties;
      target in after && after[target] == AfterDecrypt(env, properties, encOrder)[target]
  {
    ProcessRowResult(env, properties, encOrder, binded, bindOrder);
  }

  /**
   * The row loop keeps every row's class, and changes only properties named
   * in one of the two tag maps.
   */
  lemma {:induction false} ProcessRowsFrame(env: Collaborators, rows: seq<ResultObject>, encOrder: seq<string>,
                                            binded: map<string, SensitiveBinded>, bindOrder: seq<string>)
    requires forall k :: k in bindOrder ==> k in binded
    ensures |ProcessRows(env, rows, encOrder, binded, bindOrder).rows| == |rows|
    ensures forall i, p :: 0 <= i < |rows| && p in rows[i].properties && p !in encOrder && p !in bindOrder ==>
      && p in ProcessRows(env, rows, encOrder, binded, bindOrder).rows[i].properties
      && ProcessRows(env, rows, encOrder, binded, bindOrder).rows[i].properties[p] == rows[i].properties[p]
    decreases |rows|
  {
    if rows != [] {
      var prefix, last := rows[..|rows| - 1], rows[|rows| - 1];
      ProcessRowsFrame(env, prefix, encOrder, binded, bindOrder);
      var decrypted := DecryptPass(env, last.properties, encOrder);
      DecryptPassFrame(env, last.properties, encOrder);
      BindPassFrame(env, decrypted.properties, binded, bindOrder);
      forall i | 0 <= i < |prefix| ensures rows[i] == prefix[i] { }
    }
  }
}
