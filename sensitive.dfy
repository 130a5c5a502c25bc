/**
 * The entities both interceptors work on: Java values, the field annotations
 * (`@EncryptField`, `@SensitiveField`, `@SensitiveJSONField`, `@SensitiveBinded`),
 * the class-level `@SensitiveEncryptEnabled` marker, MyBatis command kinds, and
 * the outside capabilities (cipher, masking strategies, JSON codec).
 */
module Sensitive {
  import opened Wrappers

  /** A Java object read from or written to a bean property. */
  datatype Value =
    | Str(s: string)          // a String
    | NonStr(text: string)    // any other object, known only through its toString()
    | Null

  /** A `String` result that may be `null`. */
  function StrOrNull(o: Option<string>): Value {
    match o
    case Some(s) => Str(s)
    case None => Null
  }

  /** `value.toString()` of a non-null value. */
  function ToString(v: Value): string
    requires v != Null
  {
    if v.Str? then v.s else v.text
  }

  /** The name of a masking strategy (`SensitiveType`) in the strategy registry. */
  type SensitiveType = string

  /** One entry of `@SensitiveJSONField(sensitivelist = ...)`: a JSON key and its strategy. */
  datatype SensitiveJSONFieldKey = SensitiveJSONFieldKey(key: string, kind: SensitiveType)

  /** `@SensitiveBinded(bindField = ..., value = ...)`: mask `bindField` into the tagged field. */
  datatype SensitiveBinded = SensitiveBinded(kind: SensitiveType, bindField: string)

  /**
   * The annotations on one declared field. Java returns at most one annotation
   * per annotation class, and nothing forbids several classes on one field.
   */
  datatype FieldTags = FieldTags(
    encryptField: bool,
    sensitiveField: Option<SensitiveType>,
    sensitiveJSONField: Option<seq<SensitiveJSONFieldKey>>,
    sensitiveBinded: Option<SensitiveBinded>)

  /** A declared field: its name and its annotations. */
  datatype Field = Field(name: string, tags: FieldTags)

  /**
   * A Java class as the interceptors see it: the `@SensitiveEncryptEnabled`
   * marker (`None` when absent, otherwise its `value()`) and
   * `getDeclaredFields()` in declaration order.
   */
  datatype ClassInfo = ClassInfo(enabled: Option<bool>, declaredFields: seq<Field>)

  /** The marker is present and its value is true. */
  predicate IsEnabled(c: ClassInfo) {
    c.enabled == Some(true)
  }

  /** The names of a sequence of fields. */
  function Names(fields: seq<Field>): set<string> {
    set f | f in fields :: f.name
  }

  /** Field names of one class are distinct, as the Java language guarantees. */
  ghost predicate DistinctNames(fields: seq<Field>) {
    forall i, j :: 0 <= i < j < |fields| ==> fields[i].name != fields[j].name
  }

  /** MyBatis's `SqlCommandType`. */
  datatype SqlCommandType = Unknown | Insert | Update | Delete | Select | Flush

  /**
   * The capabilities the interceptors call but do not implement. `Err` is an
   * exception thrown by the call.
   *  - encrypt / decrypt: the `Encrypt` cipher;
   *  - handle: `SensitiveTypeRegisty.get(kind).handle(value)` (a `String` or `null`);
   *  - alreadyBeSensitived: `SensitiveTypeRegisty.alreadyBeSentisived(value)`;
   *  - parseToObjectMap / parseMapToJSONString: the `JsonUtils` codec.
   */
  datatype Collaborators = Collaborators(
    encrypt: string -> Result<string>,
    decrypt: string -> Result<string>,
    handle: (SensitiveType, Value) -> Result<Option<string>>,
    alreadyBeSensitived: Value -> bool,
    parseToObjectMap: string -> Result<map<string, Value>>,
    parseMapToJSONString: map<string, Value> -> Result<string>)

  /** MyBatis `MetaObject.getValue`: a property without a getter throws. */
  function GetValue(properties: map<string, Value>, name: string): Result<Value> {
    if name in properties then Ok(properties[name])
    else Err("There is no getter for property named '" + name + "'")
  }
}
