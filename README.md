# mybatis-encrypt-plugin: the two interceptors

A model of the two MyBatis plugins of mybatis-encrypt-plugin, with proofs.

- **SensitiveAndEncryptWriteInterceptor** runs before a statement is prepared. It reads the
  parameter bean and computes a new value for each declared field. A string field is first
  encrypted (`@EncryptField`). Then, for INSERT and UPDATE only, it is masked
  (`@SensitiveField`) and masked inside JSON (`@SensitiveJSONField`), unless the
  encrypted value is already recognised as masked. The changed values are bound as
  additional parameters of the `BoundSql`. The bean itself is never written.
- **DecryptReadInterceptor** runs after the result rows are materialised. The tags come from
  the result map's type. For every row, each `@EncryptField` property that is non-blank and
  a multiple of 16 characters long is decrypted. Then each `@SensitiveBinded` property is
  set to the mask of the property it is bound to. The rows are rewritten in place.

Files:

- `wrappers.dfy`: `Option` and `Result`. `Result.Err` stands for a Java exception.
- `sensitive.dfy`: what both paths share.
  - Property values: a string, another object (kept as its `toString` text) or null.
  - The four field annotations, one slot per annotation class, so any combination is
    possible as in Java.
  - Declared fields, the `@SensitiveEncryptEnabled` marker and the command kind.
  - `Collaborators`: the outside capabilities as function values. These are the cipher,
    the masking strategies (`SensitiveTypeRegisty`), `alreadyBeSentisived` and the JSON
    codec (`JsonUtils`).
- `write_interceptor.dfy`: the write path. `BoundSql` is a class whose additional
  parameters the methods update. The field loop, the bind loop and `processJsonField` are
  loops proved against recursive specification functions (`Overlay`, `JsonMasked`).
- `read_interceptor.dfy`: the read path. The rows are an `array` rewritten in place.
  - The decrypt and bind loops are proved against folds (`DecryptPass`, `BindPass`,
    `ProcessRows`).
  - The folds are related to order-free reference maps (`AfterDecrypt`, `AfterBind`).
  - HashMap iteration order is unspecified. `EntrySetOrder` picks any order listing each
    key once, and `Intercept` returns the orders it used.
- `roundtrip.dfy`: the two paths together on one `@EncryptField` column.

## Behaviour as coded

Behaviour a reader may not expect; the model follows the code:

- **Tags are not validated or cached.** Any combination of annotations is accepted. An
  `@EncryptField` + `@SensitiveField` field written by INSERT or UPDATE stores the mask of
  the ciphertext (`RoundTrip.EncryptedAndMaskedStoresMaskOfCiphertext`). The declared
  fields are rescanned on every call.
- **Write failures are fatal.**
  - An exception from the cipher or from a plain `@SensitiveField` strategy propagates and
    fails the statement.
  - A property without a getter also fails the statement.
  - Only `processJsonField` swallows its failures.
- **The overlay needs two non-null values.** A field is bound only when both its original
  and its new value are non-null and they differ. A strategy that returns null therefore
  binds nothing.
- **An unreadable read-side property throws.** On the read path, the `(String)` cast of an
  `@EncryptField` property sits outside the `try`. A non-string value, or a property
  without a getter, throws out of `intercept` and stops the row loop. Only a failed
  decryption is swallowed.
- **Null sources are passed on.** In the bound derivation, a null source is passed to the
  strategy, and a null mask is written to the target.
- **Only the first row's class is checked.** The enabled marker is looked up on that class
  only. The tags come from the result map's type, not from each row's class.

## Model

| member | source | states |
|---|---|---|
| WriteInterceptor.BoundSql.SetAdditionalParameter | src/main/java/com/chenhaiyang/plugin/mybatis/sensitive/interceptor/SensitiveAndEncryptWriteInterceptor.java:93 | binds one name to one value; every other additional parameter is kept |
| WriteInterceptor.ProcessJsonField | src/main/java/com/chenhaiyang/plugin/mybatis/sensitive/interceptor/SensitiveAndEncryptWriteInterceptor.java:135-155 | equals JsonMasked; returns the input when parsing, masking or serialising fails, else the serialised masked map |
| WriteInterceptor.MaskKeysErrSticky | src/main/java/com/chenhaiyang/plugin/mybatis/sensitive/interceptor/SensitiveAndEncryptWriteInterceptor.java:140-148 | a strategy exception at one key aborts the whole key list with that exception |
| WriteInterceptor.MaskKeysFrame | src/main/java/com/chenhaiyang/plugin/mybatis/sensitive/interceptor/SensitiveAndEncryptWriteInterceptor.java:138-149 | JSON masking adds and removes no key, keeps every unlisted key's value and keeps null values null |
| WriteInterceptor.MaskKeysOkIff | src/main/java/com/chenhaiyang/plugin/mybatis/sensitive/interceptor/SensitiveAndEncryptWriteInterceptor.java:140-148 | with distinct keys: JSON masking succeeds iff the strategy of every listed key with a non-null value succeeds |
| WriteInterceptor.MaskKeysMasksListedKeys | src/main/java/com/chenhaiyang/plugin/mybatis/sensitive/interceptor/SensitiveAndEncryptWriteInterceptor.java:143-146 | with distinct keys: each listed key with a non-null value ends up holding its strategy's mask of that value |
| WriteInterceptor.TransformField | src/main/java/com/chenhaiyang/plugin/mybatis/sensitive/interceptor/SensitiveAndEncryptWriteInterceptor.java:79-87 | one field's new value: only strings change; encrypt, then mask and JSON-mask for INSERT/UPDATE when not already masked |
| WriteInterceptor.CollectNewValues | src/main/java/com/chenhaiyang/plugin/mybatis/sensitive/interceptor/SensitiveAndEncryptWriteInterceptor.java:74-91 | the field loop computes the overlay and records only declared field names |
| WriteInterceptor.HandleParameters | src/main/java/com/chenhaiyang/plugin/mybatis/sensitive/interceptor/SensitiveAndEncryptWriteInterceptor.java:72-96 | on success the additional parameters become the old ones overridden by the overlay; on an exception nothing is bound |
| WriteInterceptor.Intercept | src/main/java/com/chenhaiyang/plugin/mybatis/sensitive/interceptor/SensitiveAndEncryptWriteInterceptor.java:53-70 | a Map, null or not-enabled parameter binds nothing; otherwise it behaves like handleParameters |
| WriteInterceptor.CollectErrSticky | src/main/java/com/chenhaiyang/plugin/mybatis/sensitive/interceptor/SensitiveAndEncryptWriteInterceptor.java:77-91 | an exception at one declared field aborts the loop with that exception |
| WriteInterceptor.CollectOkIff | src/main/java/com/chenhaiyang/plugin/mybatis/sensitive/interceptor/SensitiveAndEncryptWriteInterceptor.java:77-91 | the field loop succeeds iff every declared field has a getter and transforms without an exception |
| WriteInterceptor.CollectKeys | src/main/java/com/chenhaiyang/plugin/mybatis/sensitive/interceptor/SensitiveAndEncryptWriteInterceptor.java:88-90 | only declared field names are collected |
| WriteInterceptor.CollectEntries | src/main/java/com/chenhaiyang/plugin/mybatis/sensitive/interceptor/SensitiveAndEncryptWriteInterceptor.java:77-91 | with distinct names, every declared field is in the map iff both values are non-null and differ, mapped to its new value |
| WriteInterceptor.RecordedLastField | src/main/java/com/chenhaiyang/plugin/mybatis/sensitive/interceptor/SensitiveAndEncryptWriteInterceptor.java:88-90 | the field visited last is recorded exactly |
| WriteInterceptor.OverlayOkIff | src/main/java/com/chenhaiyang/plugin/mybatis/sensitive/interceptor/SensitiveAndEncryptWriteInterceptor.java:77-91 | a write throws iff some declared field has no getter or its transformation throws |
| WriteInterceptor.OverlayEntries | src/main/java/com/chenhaiyang/plugin/mybatis/sensitive/interceptor/SensitiveAndEncryptWriteInterceptor.java:74-91 | the overlay holds exactly the fields whose original and new values are both non-null and differ, each mapped to its new value |
| WriteInterceptor.NonStringFieldsNotInOverlay | src/main/java/com/chenhaiyang/plugin/mybatis/sensitive/interceptor/SensitiveAndEncryptWriteInterceptor.java:79-90 | a field whose value is not a string never appears in the overlay |
| WriteInterceptor.FieldNewValueShape | src/main/java/com/chenhaiyang/plugin/mybatis/sensitive/interceptor/SensitiveAndEncryptWriteInterceptor.java:80-87 | a non-string is returned unchanged; a string becomes a string or null |
| WriteInterceptor.OverlayValuesAreStrings | src/main/java/com/chenhaiyang/plugin/mybatis/sensitive/interceptor/SensitiveAndEncryptWriteInterceptor.java:88-90 | every bound value is a non-null string |
| WriteInterceptor.EncryptFailureFailsWrite | src/main/java/com/chenhaiyang/plugin/mybatis/sensitive/interceptor/SensitiveAndEncryptWriteInterceptor.java:102-110 | an encryption exception on an @EncryptField string fails the write, so nothing is bound |
| WriteInterceptor.EncryptionForEveryCommand | src/main/java/com/chenhaiyang/plugin/mybatis/sensitive/interceptor/SensitiveAndEncryptWriteInterceptor.java:82-85 | encryption runs for every command kind; SELECT, DELETE and the rest do nothing else |
| WriteInterceptor.AlreadyMaskedIsNotMasked | src/main/java/com/chenhaiyang/plugin/mybatis/sensitive/interceptor/SensitiveAndEncryptWriteInterceptor.java:83-86 | a post-encryption value already recognised as masked is not masked again |
| WriteInterceptor.RetriedWriteDoesNotRemask | src/main/java/com/chenhaiyang/plugin/mybatis/sensitive/interceptor/SensitiveAndEncryptWriteInterceptor.java:83-86 | when strategy and JSON outputs are recognised as masked, transforming the output again returns it unchanged |
| ReadInterceptor.GetSensitiveByType | src/main/java/com/chenhaiyang/plugin/mybatis/sensitive/interceptor/DecryptReadInterceptor.java:136-146 | collects exactly the names of the declared fields carrying @EncryptField |
| ReadInterceptor.GetSensitiveByResultMap | src/main/java/com/chenhaiyang/plugin/mybatis/sensitive/interceptor/DecryptReadInterceptor.java:128-134 | empty without a result map, else the @EncryptField names of its type |
| ReadInterceptor.GetSensitiveBindedByResultMap | src/main/java/com/chenhaiyang/plugin/mybatis/sensitive/interceptor/DecryptReadInterceptor.java:113-126 | empty without a result map; else a key per @SensitiveBinded field, mapped to the annotation of a field of that name |
| ReadInterceptor.EncryptFieldNamesExact | src/main/java/com/chenhaiyang/plugin/mybatis/sensitive/interceptor/DecryptReadInterceptor.java:139-144 | a name is in the @EncryptField map iff some declared field of that name carries the annotation |
| ReadInterceptor.BindedFieldsExact | src/main/java/com/chenhaiyang/plugin/mybatis/sensitive/interceptor/DecryptReadInterceptor.java:119-124 | every @SensitiveBinded field has a key, and each key maps to the annotation of a declared field of that name |
| ReadInterceptor.EntrySetOrder | src/main/java/com/chenhaiyang/plugin/mybatis/sensitive/interceptor/DecryptReadInterceptor.java:78 | an entrySet iteration lists every key exactly once |
| ReadInterceptor.DecryptRow | src/main/java/com/chenhaiyang/plugin/mybatis/sensitive/interceptor/DecryptReadInterceptor.java:78-94 | the decrypt loop of one row computes DecryptPass, stopping at the first unreadable property |
| ReadInterceptor.DeriveRow | src/main/java/com/chenhaiyang/plugin/mybatis/sensitive/interceptor/DecryptReadInterceptor.java:95-107 | the bind loop of one row computes BindPass, swallowing every failure |
| ReadInterceptor.HandleRow | src/main/java/com/chenhaiyang/plugin/mybatis/sensitive/interceptor/DecryptReadInterceptor.java:77-107 | one row: all decryptions, then all bound derivations |
| ReadInterceptor.HandleRows | src/main/java/com/chenhaiyang/plugin/mybatis/sensitive/interceptor/DecryptReadInterceptor.java:76-108 | the rows are rewritten in place, in order; after an exception the later rows are untouched |
| ReadInterceptor.Intercept | src/main/java/com/chenhaiyang/plugin/mybatis/sensitive/interceptor/DecryptReadInterceptor.java:51-111 | an empty list, a not-enabled first row or two empty tag maps leave the rows unchanged; otherwise the rows become ProcessRows with the two iteration orders |
| ReadInterceptor.DecryptPassSticky | src/main/java/com/chenhaiyang/plugin/mybatis/sensitive/interceptor/DecryptReadInterceptor.java:78-80 | once the decrypt loop throws, the row stays as it was at the throw |
| ReadInterceptor.ProcessRowsStopped | src/main/java/com/chenhaiyang/plugin/mybatis/sensitive/interceptor/DecryptReadInterceptor.java:76-80 | once a row throws, the remaining rows come back untouched |
| ReadInterceptor.DecryptPassKeepsShape | src/main/java/com/chenhaiyang/plugin/mybatis/sensitive/interceptor/DecryptReadInterceptor.java:80-88 | decryption adds and removes no property and never turns a string into a non-string |
| ReadInterceptor.DecryptPassThrowsIff | src/main/java/com/chenhaiyang/plugin/mybatis/sensitive/interceptor/DecryptReadInterceptor.java:78-80 | the decrypt loop throws iff some @EncryptField property is missing or not a string |
| ReadInterceptor.DecryptPassResult | src/main/java/com/chenhaiyang/plugin/mybatis/sensitive/interceptor/DecryptReadInterceptor.java:78-94 | with readable properties, each @EncryptField property is decrypted when non-blank, a multiple of 16 long and decryptable, else kept, in any order |
| ReadInterceptor.DecryptPassFrame | src/main/java/com/chenhaiyang/plugin/mybatis/sensitive/interceptor/DecryptReadInterceptor.java:78-94 | the decrypt loop changes no property outside the @EncryptField map |
| ReadInterceptor.BindPassKeys | src/main/java/com/chenhaiyang/plugin/mybatis/sensitive/interceptor/DecryptReadInterceptor.java:100-106 | a bound derivation adds and removes no property |
| ReadInterceptor.BindPassResult | src/main/java/com/chenhaiyang/plugin/mybatis/sensitive/interceptor/DecryptReadInterceptor.java:95-107 | without chained bindings, each target gets its source's mask, or keeps its value when the derivation fails, in any order |
| ReadInterceptor.BindPassFrame | src/main/java/com/chenhaiyang/plugin/mybatis/sensitive/interceptor/DecryptReadInterceptor.java:95-107 | the bind loop changes no property outside the @SensitiveBinded map |
| ReadInterceptor.ProcessRowResult | src/main/java/com/chenhaiyang/plugin/mybatis/sensitive/interceptor/DecryptReadInterceptor.java:76-107 | a readable row becomes the bound derivation of the decrypted row; a value the 16-character gate rejects stays as stored |
| ReadInterceptor.BoundMaskSeesDecryptedSource | src/main/java/com/chenhaiyang/plugin/mybatis/sensitive/interceptor/DecryptReadInterceptor.java:76-107 | a bound property gets the mask of its source's decrypted value |
| ReadInterceptor.FailedDerivationKeepsValue | src/main/java/com/chenhaiyang/plugin/mybatis/sensitive/interceptor/DecryptReadInterceptor.java:100-106 | when the source cannot be read or the strategy throws, the target keeps its value |
| ReadInterceptor.ProcessRowOrderIndependent | src/main/java/com/chenhaiyang/plugin/mybatis/sensitive/interceptor/DecryptReadInterceptor.java:78-107 | two iteration orders of the same tag maps give the same row |
| ReadInterceptor.ProcessRowThrowsIff | src/main/java/com/chenhaiyang/plugin/mybatis/sensitive/interceptor/DecryptReadInterceptor.java:78-80 | a row throws iff one of its @EncryptField properties is missing or not a string; no property is added or removed |
| ReadInterceptor.ProcessRowsShape | src/main/java/com/chenhaiyang/plugin/mybatis/sensitive/interceptor/DecryptReadInterceptor.java:76-110 | same number of rows, each row keeps its class and its property names |
| ReadInterceptor.ProcessRowsFrame | src/main/java/com/chenhaiyang/plugin/mybatis/sensitive/interceptor/DecryptReadInterceptor.java:76-110 | only properties named in one of the two tag maps change |
| ReadInterceptor.ProcessRowsThrowsIff | src/main/java/com/chenhaiyang/plugin/mybatis/sensitive/interceptor/DecryptReadInterceptor.java:76-108 | the row loop throws iff some row has an unreadable @EncryptField property; failed decryptions never stop it |
| ReadInterceptor.ProcessRowsComplete | src/main/java/com/chenhaiyang/plugin/mybatis/sensitive/interceptor/DecryptReadInterceptor.java:76-108 | when nothing throws, every row is processed by itself |
| RoundTrip.EncryptedFieldRoundTrip | src/main/java/com/chenhaiyang/plugin/mybatis/sensitive/interceptor/DecryptReadInterceptor.java:80-88 | given a cipher that round-trips, an @EncryptField-only string written by any command reads back as itself |
| RoundTrip.EncryptedAndMaskedStoresMaskOfCiphertext | src/main/java/com/chenhaiyang/plugin/mybatis/sensitive/interceptor/SensitiveAndEncryptWriteInterceptor.java:82-85 | an @EncryptField + @SensitiveField string written by INSERT/UPDATE is stored as the mask of its ciphertext |

## Left out

- The AES cipher: `encrypt` and `decrypt` are uninterpreted. Their round trip appears only as a hypothesis of `RoundTrip.EncryptedFieldRoundTrip`, never as a fact.
- `encrypt` or `decrypt` returning null is not modelled; both return a string or throw.
- The masking strategies, `alreadyBeSentisived` and `JsonUtils` are parameters of `Collaborators`. Their internals are not part of this model.
- MyBatis plumbing is abstracted away. This covers `PluginUtils.realTarget`, `MetaObject` property access, `Invocation.proceed`, `plugin`, `setProperties` and the `MappedStatement` lookups. The model uses a property map, a command kind and an optional result-map type.
- Reflection over annotations is replaced by a list of declared fields with their tags.
- Logging (`log.error`) and thread safety are not modelled.
- `EncryptPluginConfig` (Spring wiring with a fixed key) is not part of this model.
- ReadInterceptor.Decryptable: counts characters as Unicode scalar values. Java's `length()` counts UTF-16 units, so the two differ for characters outside the Basic Multilingual Plane.
- ReadInterceptor.Intercept: rows are values in an array. Two list positions holding the same Java object, which would be processed twice, are not modelled.
- Every property that can be read is treated as writable. A setter failure is modelled only in the bound derivation, where a target without a property is left alone.
- ReadInterceptor.Intercept: the partial rewrite of a row at which an exception escapes is modelled, although the caller never sees the list in that case.
- Bound derivations whose source is itself a target (`NoChains`) make the row depend on HashMap order. The lemmas about the bind loop assume there are no such chains. The loop itself is modelled for every order.
- ReadInterceptor.Intercept: a row cannot be null. In Java a null first row makes the class lookup throw a NullPointerException, and a later null row reaches property access on a null object; neither outcome is modelled.
- Sensitive.Value: one constructor `Str` stands for every string-like value. The write path transforms any `CharSequence`, while the read path casts to `String`. A non-`String` `CharSequence` such as a `StringBuilder` is therefore encrypted on write but would throw a `ClassCastException` on read; the model treats it as a `String` on both paths.
