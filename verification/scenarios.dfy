/** Concrete instances of the resolver's behaviour on small tables. */
module Scenarios {
  import opened Wrappers
  import opened Tables
  import opened Resolver
  import Text
  import Decimal
  import OrderedMap

  /** The `CMD_SET_MODE` rows of the generated sample data: one enum
      parameter `Mode` whose set `ARM_MODE` has three labels. */
  const SetMode: Tables := Tables(
    [CommandRow(Some("CMD_SET_MODE"), Some("0xB104"), Some("Sets the system operational mode (SAFE/LIVE/TEST)"), Some("Mode"))],
    [ParamRow(Some("Mode"), Some("enum"), Some("ARM_MODE"), None)],
    [ EnumRow(Some("ARM_MODE"), 0, Some("SAFE")),
      EnumRow(Some("ARM_MODE"), 1, Some("LIVE")),
      EnumRow(Some("ARM_MODE"), 2, Some("TEST")) ])

  lemma SmallDecimals()
    ensures Decimal.IntToString(0) == "0"
    ensures Decimal.IntToString(1) == "1"
    ensures Decimal.IntToString(2) == "2"
  {
    assert Decimal.DigitChar(0) == '0';
    assert Decimal.DigitChar(1) == '1';
    assert Decimal.DigitChar(2) == '2';
  }

  /** The mode-setting command resolves to its hex code, description and one
      enum parameter with its three labels in row order. */
  lemma SetModeResolves()
    ensures GetCommandDetails("CMD_SET_MODE", SetMode) == Success(CommandDetails(
      Some("0xB104"), Some("Sets the system operational mode (SAFE/LIVE/TEST)"), [ModeRecord]))
  {
    assert FindCommand(SetMode.commands, "CMD_SET_MODE") == Some(0);
    ModeIds();
    ModeParam();
    OneParam("Mode", SetMode.params, SetMode.enums, ModeRecord);
    DetailsOf("CMD_SET_MODE", SetMode, 0, [ModeRecord]);
  }

  lemma OneParam(id: string, params: seq<ParamRow>, enums: seq<EnumRow>, p: ResolvedParam)
    requires ResolveParam(id, params, enums) == Success(p)
    ensures ResolveParams([id], params, enums) == Success([p])
  {
    var ids := [id];
    var r := ResolveParams(ids, params, enums);
    assert ids[0] == id;
    assert r.Success?;
    assert r.value == [r.value[0]];
  }

  lemma DetailsOf(name: string, tables: Tables, i: nat, ps: seq<ResolvedParam>)
    requires FindCommand(tables.commands, name) == Some(i)
    requires ResolveParams(ParamIds(tables.commands[i].paramList), tables.params, tables.enums) == Success(ps)
    ensures GetCommandDetails(name, tables)
      == Success(CommandDetails(tables.commands[i].hexCode, tables.commands[i].description, ps))
  {
  }

  /** The labels of `ARM_MODE`, keyed by the decimal text of `Value`. */
  const ArmModeLabels: EnumMap := [("0", Some("SAFE")), ("1", Some("LIVE")), ("2", Some("TEST"))]

  /** The record of `Mode`: no `Range`, and the `ARM_MODE` labels. */
  const ModeRecord: ResolvedParam := ResolvedParam("Mode", "enum", None, Some(ArmModeLabels))

  lemma ModeIds()
    ensures ParamIds(Some("Mode")) == ["Mode"]
  {
    SingleId("Mode");
  }

  /** A cell holding one clean id yields exactly that id. */
  lemma SingleId(s: string)
    requires s != [] && Comma !in s && Text.Strip(s) == s
    ensures ParamIds(Some(s)) == [s]
  {
    var ids := [s];
    assert forall i :: 0 <= i < |ids| ==> Comma !in ids[i] && Text.Strip(ids[i]) == ids[i];
    assert ids[0] != [];
    assert Text.Join(ids, Comma) == s;
    ParamIdsOfJoin(ids);
  }

  lemma ModeParam()
    ensures ResolveParam("Mode", SetMode.params, SetMode.enums) == Success(ModeRecord)
  {
    assert FindParam(SetMode.params, "Mode") == Some(0);
    ArmModeValues();
  }

  lemma ArmModeValues()
    ensures EnumValues(SetMode.enums, "ARM_MODE") == Some(ArmModeLabels)
  {
    SmallDecimals();
    var e := SetMode.enums;
    assert e[..2][..1] == e[..1];
    assert e[..1][..0] == [];
    var ps := ArmModeLabels;
    assert EnumPairs(e[..1], "ARM_MODE") == ps[..1];
    assert EnumPairs(e[..2], "ARM_MODE") == ps[..2];
    assert EnumPairs(e, "ARM_MODE") == ps;
    assert ps[..2][..1] == ps[..1];
    assert ps[..1][..0] == [];
    var m1: EnumMap := [("0", Some("SAFE"))];
    var m2: EnumMap := [("0", Some("SAFE")), ("1", Some("LIVE"))];
    assert OrderedMap.FromPairs(ps[..1]) == m1;
    assert OrderedMap.Put(m1, "1", Some("LIVE")) == m2 by {
      assert OrderedMap.Put(m1[1..], "1", Some("LIVE")) == [("1", Some("LIVE"))];
    }
    assert OrderedMap.FromPairs(ps[..2]) == m2;
    assert OrderedMap.Put(m2, "2", Some("TEST")) == ps by {
      assert m2[1..] == [("1", Some("LIVE"))];
      assert OrderedMap.Put(m2[1..][1..], "2", Some("TEST")) == [("2", Some("TEST"))];
      assert OrderedMap.Put(m2[1..], "2", Some("TEST")) == [("1", Some("LIVE")), ("2", Some("TEST"))];
    }
  }

  /** A name with no row fails with no partial result. */
  lemma NonexistentCommandFails()
    ensures GetCommandDetails("CMD_NONEXISTENT", SetMode) == Failure(CommandNotFound("CMD_NONEXISTENT"))
  {
  }

  /** Empty pieces between commas are kept as empty ids. */
  lemma EmptyPiecesKept()
    ensures ParamIds(Some("A,,B")) == ["A", "", "B"]
  {
    var ids := ["A", "", "B"];
    Text.StripOfStripped(ids[0]);
    Text.StripOfStripped(ids[1]);
    Text.StripOfStripped(ids[2]);
    assert ids[0] != [];
    assert Text.Join(ids, Comma) == "A,,B";
    ParamIdsOfJoin(ids);
  }

  /** A lone comma gives two empty ids. */
  lemma LoneCommaKept()
    ensures ParamIds(Some(",")) == ["", ""]
  {
    var ids: seq<string> := ["", ""];
    Text.StripOfStripped(ids[0]);
    assert Text.Join(ids, Comma) == ",";
    ParamIdsOfJoin(ids);
  }

  /** Whitespace around each piece is removed. */
  lemma PiecesStripped()
    ensures ParamIds(Some(" Roll , Pitch ")) == ["Roll", "Pitch"]
  {
    assert Padded("Roll") + [Comma] + Padded("Pitch") == " Roll , Pitch ";
    PaddedPair("Roll", "Pitch");
  }

  function Padded(s: string): string
  {
    [' '] + s + [' ']
  }

  /** Two clean ids, each padded by one space and separated by a comma,
      come back without the padding. */
  lemma PaddedPair(a: string, b: string)
    requires a != [] && Comma !in a && !Text.IsSpace(a[0]) && !Text.IsSpace(a[|a| - 1])
    requires b != [] && Comma !in b && !Text.IsSpace(b[0]) && !Text.IsSpace(b[|b| - 1])
    ensures ParamIds(Some(Padded(a) + [Comma] + Padded(b))) == [a, b]
  {
    var s := Padded(a) + [Comma] + Padded(b);
    var pieces := [Padded(a), Padded(b)];
    StripTo(pieces[0], a);
    StripTo(pieces[1], b);
    var stripped := Text.StripAll(pieces);
    assert stripped == [a, b] by {
      assert stripped[0] == a && stripped[1] == b;
    }
    assert !Text.AllSpace(s) by { assert s[1] == a[0]; }
    PaddedSplit(a, b);
  }

  lemma PaddedSplit(a: string, b: string)
    requires Comma !in a && Comma !in b
    ensures Text.Split(Padded(a) + [Comma] + Padded(b), Comma) == [Padded(a), Padded(b)]
  {
    var pieces := [Padded(a), Padded(b)];
    assert Comma !in pieces[0] && Comma !in pieces[1];
    assert Text.Join(pieces, Comma) == Padded(a) + [Comma] + Padded(b);
    Text.SplitJoin(pieces, Comma);
  }

  /** A whitespace-only cell gives no parameters. */
  lemma BlankParams()
    ensures ParamIds(Some(" \t ")) == []
  {
    assert Text.AllSpace(" \t ");
  }

  lemma StripTo(s: string, r: string)
    requires |s| == |r| + 2 && s == [' '] + r + [' '] && |r| > 0
    requires !Text.IsSpace(r[0]) && !Text.IsSpace(r[|r| - 1])
    ensures Text.Strip(s) == r
  {
    assert s[1..|s| - 1] == r;
    assert Text.IsStripCut(s, 1, |s| - 1);
    Text.StripUnique(s, r);
  }

  /** A repeated value keeps its first position and takes its last label. */
  lemma RepeatedValueOverwrites()
    ensures EnumValues([ EnumRow(Some("S"), 1, Some("A")),
                         EnumRow(Some("S"), 2, Some("B")),
                         EnumRow(Some("S"), 1, Some("C")) ], "S")
      == Some([("1", Some("C")), ("2", Some("B"))])
  {
    SmallDecimals();
    var e := [ EnumRow(Some("S"), 1, Some("A")), EnumRow(Some("S"), 2, Some("B")), EnumRow(Some("S"), 1, Some("C")) ];
    assert e[..2][..1] == e[..1];
    assert e[..1][..0] == [];
    var ps := [("1", Some("A")), ("2", Some("B")), ("1", Some("C"))];
    assert EnumPairs(e[..1], "S") == ps[..1];
    assert EnumPairs(e[..2], "S") == ps[..2];
    assert EnumPairs(e, "S") == ps;
    assert ps[..2][..1] == ps[..1];
    assert ps[..1][..0] == [];
    assert OrderedMap.FromPairs(ps[..1]) == [("1", Some("A"))];
    var m1: EnumMap := [("1", Some("A"))];
    var m2: EnumMap := [("1", Some("A")), ("2", Some("B"))];
    assert OrderedMap.Put(m1, "2", Some("B")) == m2 by {
      assert OrderedMap.Put(m1[1..], "2", Some("B")) == [("2", Some("B"))];
    }
    assert OrderedMap.FromPairs(ps[..2]) == m2;
    assert OrderedMap.Put(m2, "1", Some("C")) == [("1", Some("C")), ("2", Some("B"))];
  }
}
