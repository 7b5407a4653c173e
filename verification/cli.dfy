/** The lookup step of the command-line entry point `main`: it tests that
    the name is in the `Command` column before calling the resolver, so a
    missing command is reported instead of raising. */
module Cli {
  import opened Wrappers
  import opened Tables
  import opened Resolver

  /** What `main` prints about the requested command. */
  datatype Report =
    | Shown(name: string, details: CommandDetails)
    | NotFound(name: string)

  /** `name in commands_df['Command'].values`. */
  function HasCommand(commands: seq<CommandRow>, name: string): (r: bool)
    ensures r <==> FindCommand(commands, name).Some?
  {
    exists j :: 0 <= j < |commands| && CommandIs(commands[j], name)
  }

  /** The membership test followed by the resolver call. */
  function Lookup(name: string, tables: Tables): (r: Result<Report, ResolveError>)
    ensures r.Success? && r.value.NotFound? ==> r.value.name == name
    ensures (r.Success? && r.value.NotFound?) <==> GetCommandDetails(name, tables) == Failure(CommandNotFound(name))
    ensures r.Failure? ==> r.error.NullType?
    ensures r.Failure? ==> GetCommandDetails(name, tables) == Failure(r.error)
    ensures (r.Success? && r.value.Shown?) <==> GetCommandDetails(name, tables).Success?
    ensures r.Success? && r.value.Shown? ==>
      r.value.name == name && GetCommandDetails(name, tables) == Success(r.value.details)
  {
    if HasCommand(tables.commands, name) then
      match GetCommandDetails(name, tables)
      case Success(d) => Success(Shown(name, d))
      case Failure(e) => Failure(e)
    else Success(NotFound(name))
  }
}
