/** The command resolver: joins the command, parameter-metadata and enum
    tables into the denormalised description of one command
    (`get_command_details`). */
module Resolver {
  import opened Wrappers
  import opened Seqs
  import opened Tables
  import Text
  import Decimal
  import OrderedMap

  /** The `type` reported for a parameter id that has no metadata row. */
  const UnknownType: string := "unknown"

  /** The `Type` value for which the enum labels are looked up. */
  const EnumType: string := "enum"

  /** The separator of the `Params` cell. */
  const Comma: char := ','

  /** A value-to-label dictionary in insertion order: keys are the decimal
      text of `Value`, values the (nullable) `Label` cells. */
  type EnumMap = seq<(string, Option<string>)>

  /** One entry of the resolved parameter list. */
  datatype ResolvedParam = ResolvedParam(
    name: string,
    paramType: string,
    range: Option<string>,
    enumValues: Option<EnumMap>)

  /** What the resolver returns: hex code, description, parameter list. */
  datatype CommandDetails = CommandDetails(
    hexCode: Option<string>,
    description: Option<string>,
    params: seq<ResolvedParam>)

  /** The exceptions the resolver raises. `CommandNotFound` is the
      `IndexError` of `.iloc[0]` on an empty selection; `NullType` is the
      `TypeError` of testing a null `Type` cell for truth. */
  datatype ResolveError =
    | CommandNotFound(name: string)
    | NullType(paramId: string)

  // ---------------------------------------------------------------------
  // Command lookup

  /** `commands_df['Command'] == name` for one row; a null cell never matches. */
  predicate CommandIs(row: CommandRow, name: string)
  {
    row.command == Some(name)
  }

  /** Position of the row `.iloc[0]` picks: the first whose `Command` is `name`. */
  function FindCommand(commands: seq<CommandRow>, name: string): (r: Option<nat>)
    ensures r.Some? ==> r.value < |commands| && CommandIs(commands[r.value], name)
    ensures r.Some? ==> forall j :: 0 <= j < r.value ==> !CommandIs(commands[j], name)
    ensures r.None? <==> forall j :: 0 <= j < |commands| ==> !CommandIs(commands[j], name)
  {
    FirstMatch(commands, row => CommandIs(row, name))
  }

  // ---------------------------------------------------------------------
  // The `Params` cell

  /** The parameter ids of a `Params` cell: none for a null or blank cell,
      otherwise the comma-separated pieces, each stripped, in order and with
      empty pieces kept. */
  function ParamIds(cell: Option<string>): (ids: seq<string>)
    ensures ids == [] <==> cell.None? || Text.AllSpace(cell.value)
    ensures cell.Some? && !Text.AllSpace(cell.value) ==>
      && |ids| == Text.Count(cell.value, Comma) + 1
      && ids == Text.StripAll(Text.Split(cell.value, Comma))
  {
    match cell
    case None => []
    case Some(s) =>
      Text.StripEmptyIffAllSpace(s);
      if Text.Strip(s) == [] then [] else Text.StripAll(Text.Split(s, Comma))
  }

  /** Every id is free of commas and of surrounding whitespace. */
  lemma ParamIdsClean(cell: Option<string>)
    ensures forall i :: 0 <= i < |ParamIds(cell)| ==>
      Comma !in ParamIds(cell)[i] && Text.Strip(ParamIds(cell)[i]) == ParamIds(cell)[i]
  {
    var ids := ParamIds(cell);
    if ids != [] {
      var pieces := Text.Split(cell.value, Comma);
      forall i | 0 <= i < |ids|
        ensures Comma !in ids[i] && Text.Strip(ids[i]) == ids[i]
      {
        Text.StripKeepsOut(pieces[i], Comma);
        Text.StripIdempotent(pieces[i]);
      }
    }
  }

  /** A `Params` cell written as the comma-join of stripped, comma-free
      ids is read back as exactly those ids, empty ids included. The one
      exception is a single empty id: its cell is blank and gives none. */
  lemma ParamIdsOfJoin(ids: seq<string>)
    requires |ids| >= 1
    requires forall i :: 0 <= i < |ids| ==> Comma !in ids[i] && Text.Strip(ids[i]) == ids[i]
    requires |ids| >= 2 || ids[0] != []
    ensures ParamIds(Some(Text.Join(ids, Comma))) == ids
  {
    Text.SplitJoin(ids, Comma);
    JoinNotBlank(ids);
    Text.StripAllStripped(ids);
  }

  /** The joined cell is not blank: with two or more ids it holds a comma,
      and otherwise its one id is non-empty and stripped. */
  lemma JoinNotBlank(ids: seq<string>)
    requires |ids| >= 1
    requires forall i :: 0 <= i < |ids| ==> Text.Strip(ids[i]) == ids[i]
    requires |ids| >= 2 || ids[0] != []
    ensures !Text.AllSpace(Text.Join(ids, Comma))
  {
    var s := Text.Join(ids, Comma);
    if |ids| >= 2 {
      assert s == ids[0] + [Comma] + Text.Join(ids[1..], Comma);
      assert s[|ids[0]|] == Comma;
    } else {
      assert !Text.IsSpace(s[0]);
    }
  }

  // ---------------------------------------------------------------------
  // Enum labels

  /** `enums_df["EnumSet"] == set` for one row; a null cell never matches. */
  predicate InEnumSet(row: EnumRow, enumSet: string)
  {
    row.enumSet == Some(enumSet)
  }

  /** The rows of enum set `enumSet` as `(str(Value), Label)` pairs, in table order. */
  function EnumPairs(enums: seq<EnumRow>, enumSet: string): (ps: EnumMap)
    ensures |ps| == 0 <==> forall j :: 0 <= j < |enums| ==> !InEnumSet(enums[j], enumSet)
  {
    if |enums| == 0 then []
    else
      var row := enums[|enums| - 1];
      var ps := EnumPairs(enums[..|enums| - 1], enumSet);
      if InEnumSet(row, enumSet) then ps + [(Decimal.IntToString(row.value), row.enumLabel)] else ps
  }

  /** The `Value`s of the rows of enum set `enumSet`, in table order. */
  function SetValues(enums: seq<EnumRow>, enumSet: string): seq<int>
  {
    if |enums| == 0 then []
    else
      var row := enums[|enums| - 1];
      var vs := SetValues(enums[..|enums| - 1], enumSet);
      if InEnumSet(row, enumSet) then vs + [row.value as int] else vs
  }

  /** Reference reading of the label shown for value `v`: the `Label` of the
      last row of set `enumSet` whose `Value` is `v`. */
  function LastLabel(enums: seq<EnumRow>, enumSet: string, v: int): Option<Option<string>>
  {
    if |enums| == 0 then None
    else
      var row := enums[|enums| - 1];
      if InEnumSet(row, enumSet) && row.value == v then Some(row.enumLabel)
      else LastLabel(enums[..|enums| - 1], enumSet, v)
  }

  /** `dict(zip(values.astype(str), labels))` over the rows of `enumSet`, or
      nothing when the set has no rows. */
  function EnumValues(enums: seq<EnumRow>, enumSet: string): (r: Option<EnumMap>)
    ensures r.Some? <==> exists j :: 0 <= j < |enums| && InEnumSet(enums[j], enumSet)
    ensures r.Some? ==> Distinct(OrderedMap.Keys(r.value))
  {
    var ps := EnumPairs(enums, enumSet);
    if |ps| == 0 then None else Some(OrderedMap.FromPairs(ps))
  }

  lemma {:induction false} EnumPairsKeys(enums: seq<EnumRow>, enumSet: string)
    ensures OrderedMap.Keys(EnumPairs(enums, enumSet)) == Map(Decimal.IntToString, SetValues(enums, enumSet))
  {
    if |enums| > 0 {
      EnumPairsKeys(enums[..|enums| - 1], enumSet);
    }
  }

  lemma {:induction false} EnumPairsLast(enums: seq<EnumRow>, enumSet: string, v: int)
    ensures OrderedMap.LastValue(EnumPairs(enums, enumSet), Decimal.IntToString(v)) == LastLabel(enums, enumSet, v)
  {
    if |enums| > 0 {
      var row := enums[|enums| - 1];
      var ps := EnumPairs(enums[..|enums| - 1], enumSet);
      EnumPairsLast(enums[..|enums| - 1], enumSet, v);
      Decimal.IntToStringInjective(row.value, v);
      if InEnumSet(row, enumSet) {
        assert (ps + [(Decimal.IntToString(row.value), row.enumLabel)])[..|ps|] == ps;
      }
    }
  }

  /** The dictionary lists each distinct value of the set once, in the
      order of the value's first row. */
  lemma EnumValuesKeys(enums: seq<EnumRow>, enumSet: string)
    requires exists j :: 0 <= j < |enums| && InEnumSet(enums[j], enumSet)
    ensures OrderedMap.Keys(EnumValues(enums, enumSet).value)
      == Map(Decimal.IntToString, Dedup(SetValues(enums, enumSet)))
  {
    var ps := EnumPairs(enums, enumSet);
    OrderedMap.FromPairsKeys(ps);
    EnumPairsKeys(enums, enumSet);
    Decimal.IntToStringInjectiveAll();
    DedupMap(Decimal.IntToString, SetValues(enums, enumSet));
  }

  /** The label shown for a value is the label of its last row. */
  lemma EnumValuesGet(enums: seq<EnumRow>, enumSet: string, v: int)
    requires exists j :: 0 <= j < |enums| && InEnumSet(enums[j], enumSet)
    ensures OrderedMap.Get(EnumValues(enums, enumSet).value, Decimal.IntToString(v)) == LastLabel(enums, enumSet, v)
  {
    OrderedMap.FromPairsGet(EnumPairs(enums, enumSet), Decimal.IntToString(v));
    EnumPairsLast(enums, enumSet, v);
  }

  /** The dictionary has one entry per distinct value, not one per row. */
  lemma EnumValuesSize(enums: seq<EnumRow>, enumSet: string)
    requires exists j :: 0 <= j < |enums| && InEnumSet(enums[j], enumSet)
    ensures |EnumValues(enums, enumSet).value| == |Elems(SetValues(enums, enumSet))|
  {
    EnumValuesKeys(enums, enumSet);
    DedupSize(SetValues(enums, enumSet));
  }

  // ---------------------------------------------------------------------
  // Parameters

  /** `params_df['ParamID'] == pid` for one row; a null cell never matches. */
  predicate ParamIs(row: ParamRow, pid: string)
  {
    row.paramId == Some(pid)
  }

  /** Position of the metadata row used for `pid`: the first with that `ParamID`. */
  function FindParam(params: seq<ParamRow>, pid: string): (r: Option<nat>)
    ensures r.Some? ==> r.value < |params| && ParamIs(params[r.value], pid)
    ensures r.Some? ==> forall j :: 0 <= j < r.value ==> !ParamIs(params[j], pid)
    ensures r.None? <==> forall j :: 0 <= j < |params| ==> !ParamIs(params[j], pid)
  {
    FirstMatch(params, row => ParamIs(row, pid))
  }

  /** The record for one parameter id (the body of the loop over ids). A
      null `Type` in the row used raises. */
  function ResolveParam(pid: string, params: seq<ParamRow>, enums: seq<EnumRow>): (r: Result<ResolvedParam, ResolveError>)
    ensures r.Success? ==> r.value.name == pid
    ensures r.Failure? ==> r.error == NullType(pid)
  {
    match FindParam(params, pid)
    case None => Success(ResolvedParam(pid, UnknownType, None, None))
    case Some(i) =>
      var row := params[i];
      match row.paramType
      case None => Failure(NullType(pid))
      case Some(t) =>
        var enumValues := if t == EnumType && row.enumSet.Some? then EnumValues(enums, row.enumSet.value) else None;
        Success(ResolvedParam(pid, t, row.range, enumValues))
  }

  /** An id with no metadata row gives the degraded "unknown" record. */
  lemma ResolveUnknownParam(pid: string, params: seq<ParamRow>, enums: seq<EnumRow>)
    requires forall j :: 0 <= j < |params| ==> !ParamIs(params[j], pid)
    ensures ResolveParam(pid, params, enums) == Success(ResolvedParam(pid, UnknownType, None, None))
  {
  }

  /** An id with metadata takes the first matching row: its `Type` (the
      call raising when it is null) and `Range` as they are, and enum labels
      exactly when the type is "enum", the row names an enum set and that
      set has rows. */
  lemma ResolveKnownParam(pid: string, params: seq<ParamRow>, enums: seq<EnumRow>, i: nat)
    requires i < |params| && ParamIs(params[i], pid)
    requires forall j :: 0 <= j < i ==> !ParamIs(params[j], pid)
    ensures var r := ResolveParam(pid, params, enums);
      && (r.Failure? <==> params[i].paramType.None?)
      && (r.Success? ==> r.value.paramType == params[i].paramType.value && r.value.range == params[i].range)
      && (r.Success? ==>
            (r.value.enumValues.Some? <==>
               && params[i].paramType == Some(EnumType)
               && params[i].enumSet.Some?
               && exists j :: 0 <= j < |enums| && InEnumSet(enums[j], params[i].enumSet.value)))
      && (r.Success? && r.value.enumValues.Some? ==>
            r.value.enumValues == EnumValues(enums, params[i].enumSet.value))
  {
    assert FindParam(params, pid) == Some(i);
  }

  /** The loop over the ids: one record per id, in id order, each depending
      only on its own id; the first id whose resolution raises aborts. */
  function ResolveParams(ids: seq<string>, params: seq<ParamRow>, enums: seq<EnumRow>): (r: Result<seq<ResolvedParam>, ResolveError>)
    ensures r.Success? <==> forall i :: 0 <= i < |ids| ==> ResolveParam(ids[i], params, enums).Success?
    ensures r.Success? ==> |r.value| == |ids|
    ensures r.Success? ==> forall i :: 0 <= i < |ids| ==> ResolveParam(ids[i], params, enums) == Success(r.value[i])
    ensures r.Failure? ==>
      exists i :: (0 <= i < |ids|
        && ResolveParam(ids[i], params, enums) == Failure(r.error)
        && forall j :: 0 <= j < i ==> ResolveParam(ids[j], params, enums).Success?)
  {
    TryMap(pid => ResolveParam(pid, params, enums), ids)
  }

  // ---------------------------------------------------------------------
  // The resolver

  /** `get_command_details(name, commands, params, enums)`. */
  function GetCommandDetails(name: string, tables: Tables): (r: Result<CommandDetails, ResolveError>)
    ensures r == Failure(CommandNotFound(name)) <==> FindCommand(tables.commands, name).None?
    ensures r.Success? ==>
      var row := tables.commands[FindCommand(tables.commands, name).value];
      var ids := ParamIds(row.paramList);
      && r.value.hexCode == row.hexCode
      && r.value.description == row.description
      && |r.value.params| == |ids|
      && forall i :: 0 <= i < |ids| ==>
           r.value.params[i].name == ids[i]
           && Success(r.value.params[i]) == ResolveParam(ids[i], tables.params, tables.enums)
    ensures r.Failure? && FindCommand(tables.commands, name).Some? ==>
      var row := tables.commands[FindCommand(tables.commands, name).value];
      r.error.NullType? && r.error.paramId in ParamIds(row.paramList)
  {
    match FindCommand(tables.commands, name)
    case None => Failure(CommandNotFound(name))
    case Some(i) =>
      var row := tables.commands[i];
      match ResolveParams(ParamIds(row.paramList), tables.params, tables.enums)
      case Failure(e) => Failure(e)
      case Success(ps) => Success(CommandDetails(row.hexCode, row.description, ps))
  }

  /** Resolving `pid` does not raise: it has no metadata row, or the
      first row with its `ParamID` has a `Type`. */
  predicate TypeResolvable(params: seq<ParamRow>, pid: string)
  {
    var k := FindParam(params, pid);
    k.None? || params[k.value].paramType.Some?
  }

  /** One id resolves exactly when its `Type` lookup cannot raise. */
  lemma ResolveParamSucceeds(pid: string, params: seq<ParamRow>, enums: seq<EnumRow>)
    ensures ResolveParam(pid, params, enums).Success? <==> TypeResolvable(params, pid)
  {
    match FindParam(params, pid)
    case None =>
      ResolveUnknownParam(pid, params, enums);
    case Some(k) =>
      ResolveKnownParam(pid, params, enums, k);
  }

  /** A command that is present resolves exactly when none of its ids has
      a first metadata row with a null `Type`; it then yields one record
      per id of its `Params` cell. */
  lemma PresentCommandResolves(name: string, tables: Tables)
    requires FindCommand(tables.commands, name).Some?
    ensures var ids := ParamIds(tables.commands[FindCommand(tables.commands, name).value].paramList);
      (GetCommandDetails(name, tables).Success? <==>
         forall i :: 0 <= i < |ids| ==> TypeResolvable(tables.params, ids[i]))
    ensures GetCommandDetails(name, tables).Success? ==>
      |GetCommandDetails(name, tables).value.params|
        == |ParamIds(tables.commands[FindCommand(tables.commands, name).value].paramList)|
  {
    var ids := ParamIds(tables.commands[FindCommand(tables.commands, name).value].paramList);
    forall i | 0 <= i < |ids|
      ensures ResolveParam(ids[i], tables.params, tables.enums).Success? <==> TypeResolvable(tables.params, ids[i])
    {
      ResolveParamSucceeds(ids[i], tables.params, tables.enums);
    }
    assert GetCommandDetails(name, tables).Success? <==> ResolveParams(ids, tables.params, tables.enums).Success?;
  }

  /** Repeated ids give repeated, identical records. */
  lemma SameIdSameRecord(ids: seq<string>, params: seq<ParamRow>, enums: seq<EnumRow>, i: nat, j: nat)
    requires i < |ids| && j < |ids| && ids[i] == ids[j]
    ensures var r := ResolveParams(ids, params, enums);
      r.Success? ==> r.value[i] == r.value[j]
  {
    var r := ResolveParams(ids, params, enums);
    if r.Success? {
      assert Success(r.value[i]) == ResolveParam(ids[i], params, enums);
      assert Success(r.value[j]) == ResolveParam(ids[j], params, enums);
    }
  }
}
