/** The parsed message-schema shape shared by the parser, the writer and the
    definition scripts (the `MessageDefinition` and `MessageDefinitionField`
    types of the message-definition package). Optional booleans of the source
    are plain booleans here, `undefined` reading as false. */
module MsgDef {
  import opened Wrappers

  datatype Field = Field(
    name: string,
    typ: string,                 // a primitive type name, or a complex type name
    isComplex: bool,
    isArray: bool,
    arrayLength: Option<nat>,    // present only for fixed-length arrays
    isConstant: bool)

  /** One type of a schema set; the top-level type of a definition text has no name. */
  datatype MessageDefinition = MessageDefinition(name: Option<string>, definitions: seq<Field>)

  /** `type.name ?? ""`. */
  function NameOrEmpty(t: MessageDefinition): string {
    t.name.GetOr("")
  }
}
