/**
 * The structured-message library as the core sees it: a registry that can
 * create an empty message of a named type, knows which fields each type
 * declares, serializes a message to bytes, parses bytes into a message of a
 * given type, and parses the text format. Its behaviour is an oracle: every
 * capability is a field of the `Registry` value handed to the core.
 */
module MessageRegistry {
  import opened Results
  import opened Bytes

  /** A field value of a message: the core only ever reads string fields. */
  datatype Value = Str(s: string) | Int(i: int)

  /** A message instance: its full type name and the fields that are set. */
  datatype Message = Message(typeName: string, fields: map<string, Value>)

  datatype Registry = Registry(
    /** type names for which `create_message` returns an instance */
    creatable: set<string>,
    /** the field names each type's descriptor declares */
    schema: map<string, set<string>>,
    /** `AppendToString`: the wire form, or None when serialization fails */
    serialize: Message -> Option<seq<Byte>>,
    /** `ParseFromArray` into a fresh message of the named type */
    parse: (string, seq<Byte>) -> Option<map<string, Value>>,
    /** `load_text_format_string_message` into a fresh message of the named type */
    parseText: (string, string) -> Option<map<string, Value>>)

  /** `create_message(typeName)`: an empty instance, or None when the type is unknown. */
  function CreateMessage(reg: Registry, typeName: string): (m: Option<Message>)
    ensures m.Some? <==> typeName in reg.creatable
    ensures m.Some? ==> m.value.typeName == typeName && m.value.fields == map[]
  {
    if typeName in reg.creatable then Some(Message(typeName, map[])) else None
  }

  /** Whether the descriptor of `typeName` declares a field called `field`. */
  predicate HasField(reg: Registry, typeName: string, field: string) {
    typeName in reg.schema && field in reg.schema[typeName]
  }

  /** Reflection `GetString`: the field's string value; unset reads as the empty default. */
  function StringField(m: Message, field: string): string {
    if field in m.fields && m.fields[field].Str? then m.fields[field].s else ""
  }

  /** Sets a string field, as the generated `set_<field>` accessor does. */
  function SetStringField(m: Message, field: string, value: string): (r: Message)
    ensures r.typeName == m.typeName
    ensures StringField(r, field) == value
    ensures forall f :: f in m.fields && f != field ==> f in r.fields && r.fields[f] == m.fields[f]
  {
    m.(fields := m.fields[field := Str(value)])
  }

  /**
   * The registry serializes `m` and parses those bytes back, as a message of
   * type `asType`, into the same fields.
   */
  ghost predicate RoundTrips(reg: Registry, m: Message, asType: string) {
    && reg.serialize(m).Some?
    && reg.parse(asType, reg.serialize(m).value) == Some(m.fields)
  }
}
