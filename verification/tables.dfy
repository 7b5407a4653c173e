/** The three relations the loader reads, one row datatype per CSV file.
    Columns read with the nullable `string` dtype become `Option<string>`;
    the enum `Value` column is read as `int32` and is never null. */
module Tables {
  import opened Wrappers
  import opened Decimal

  /** A row of master_commands.csv. `paramList` is the `Params` cell: the
      comma-separated list of parameter ids. */
  datatype CommandRow = CommandRow(
    command: Option<string>,
    hexCode: Option<string>,
    description: Option<string>,
    paramList: Option<string>)

  /** A row of parameter_metadata.csv. */
  datatype ParamRow = ParamRow(
    paramId: Option<string>,
    paramType: Option<string>,
    enumSet: Option<string>,
    range: Option<string>)

  /** A row of enum_definitions.csv. */
  datatype EnumRow = EnumRow(
    enumSet: Option<string>,
    value: Int32,
    enumLabel: Option<string>)

  /** The loaded data: the three relations in file order. */
  datatype Tables = Tables(
    commands: seq<CommandRow>,
    params: seq<ParamRow>,
    enums: seq<EnumRow>)
}
