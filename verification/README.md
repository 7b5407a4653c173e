# Command resolver of the command-search tool, in Dafny

The tool looks up a spacecraft command by name in three CSV tables and
prints a denormalised description of it:

- the command table has the columns `Command`, `HexCode`, `Description` and `Params`;
- the parameter-metadata table has `ParamID`, `Type`, `EnumSet` and `Range`;
- the enum table has `EnumSet`, `Value` and `Label`.

This project models the resolver `get_command_details`, the once-only
cache of `load_data`, and the membership test `main` performs before it
calls the resolver. All of these are in `data_loader.py`.

The tables are sequences of row datatypes (`Tables`). A nullable
`string`-dtype cell is an `Option<string>`. The `int32` `Value` column is
the subset type `Decimal.Int32`. A pandas comparison with a null cell is
never true, so a null `Command`, `ParamID` or `EnumSet` never matches a
lookup. The resolver returns a `Result`, and its two failures are the
exceptions the code raises:

- `CommandNotFound` is the `IndexError` that `.iloc[0]` raises when no row
  has the name;
- `NullType` is the `TypeError` that `param_row["Type"] == "enum" and …`
  raises when the matched metadata row has a null `Type`, because the truth
  value of `pd.NA` is undefined.

A present command can still fail with `NullType`;
`Resolver.PresentCommandResolves` states exactly when: some id of its
`Params` cell has a first metadata row whose `Type` is null.

Module layout:

| module | contents |
|---|---|
| `Wrappers` | `Option`, `Result` |
| `Text` | Python's `str.strip()` with CPython's whitespace set, `str.split(sep)`, `sep.join` of a non-empty list |
| `Decimal` | `str()` of an integer and its inverse |
| `Seqs` | first match of a mask, the fail-fast loop, first-occurrence de-duplication |
| `OrderedMap` | Python's insertion-ordered `dict` as an association list, and `dict(pairs)` |
| `Tables` | the three row types |
| `Resolver` | `get_command_details` and its parts |
| `Loader` | the `load_data` cache as a state machine; the file read is a parameter |
| `Cli` | `main`'s membership test in front of the resolver |
| `Scenarios` | the `CMD_SET_MODE` sample rows and small cell examples, worked out |

## Model

| member | source | states |
|---|---|---|
| Resolver.FindCommand | data_loader.py:90 | The row used is the first whose `Command` equals the name. There is none exactly when no row has that name, and a null cell never matches. |
| Resolver.GetCommandDetails | data_loader.py:89-133 | The call fails with `CommandNotFound` exactly when no row has the name. Otherwise the hex code and description are those of the first matching row, unchanged. There is one record per id of its `Params` cell, in id order, record `i` is named `ids[i]`, and each record is what resolving that id alone gives. Any other failure is `NullType` of one of the ids. |
| Resolver.PresentCommandResolves | data_loader.py:101-131 | A present command resolves exactly when every id of its `Params` cell either has no metadata row or has a first matching row with a non-null `Type`. It then gives one record per id. |
| Resolver.SameIdSameRecord | data_loader.py:101-131 | In the loop over the ids, two equal ids get identical records, so a repeated id gives a repeated record. |
| Resolver.ParamIds | data_loader.py:95-99 | A null, empty or whitespace-only `Params` cell gives no ids, and only such a cell does. Any other cell gives the comma-separated pieces, each stripped. There are (number of commas + 1) of them, in order. |
| Resolver.ParamIdsClean | data_loader.py:99 | Every id is free of commas and has no surrounding whitespace. |
| Resolver.ParamIdsOfJoin | data_loader.py:99 | A cell written as the comma-join of clean ids is read back as exactly those ids, empty ids included (so `","` gives two empty ids). The only exception is a single empty id, whose cell is blank. |
| Resolver.JoinNotBlank | data_loader.py:95-97 | A comma-join of stripped ids is not a blank cell unless it is a single empty id. |
| Resolver.FindParam | data_loader.py:104-113 | The metadata row used for an id is the first whose `ParamID` equals it. There is none exactly when no row matches. |
| Resolver.ResolveParam | data_loader.py:102-131 | A record is always named by its own id. The only failure is `NullType` of that id. |
| Resolver.ResolveParamSucceeds | data_loader.py:104-122 | An id resolves exactly when it has no metadata row or its first matching row has a non-null `Type`. |
| Resolver.ResolveUnknownParam | data_loader.py:105-111 | An id with no metadata row gives type "unknown", no range and no enum labels. |
| Resolver.ResolveKnownParam | data_loader.py:112-129 | An id with metadata uses the first matching row. The call fails exactly when that row's `Type` is null. The type and range are passed through. Enum labels are present exactly when the type is "enum", the row names an enum set and that set has rows, and they are then that set's dictionary. |
| Resolver.ResolveParams | data_loader.py:101-131 | The loop succeeds exactly when every id resolves. It gives one record per id, in order. On failure the error is that of the first id that fails. |
| Resolver.EnumPairs | data_loader.py:124-125 | The set's `(str(Value), Label)` pairs are empty exactly when no row has that `EnumSet`. |
| Resolver.EnumValues | data_loader.py:122-129 | There is a dictionary exactly when some row has the set, and its keys are distinct. |
| Resolver.EnumValuesKeys | data_loader.py:127-129 | The keys are the decimal text of the set's distinct values, in order of first occurrence. |
| Resolver.EnumValuesGet | data_loader.py:127-129 | The label for a value is the label of the last row of the set with that value, and it agrees with the independent `LastLabel` reading. |
| Resolver.EnumValuesSize | data_loader.py:127-129 | The dictionary has one entry per distinct value, not one per row. |
| Resolver.EnumPairsKeys | data_loader.py:128 | The pair keys are the decimal text of the set's values, row by row. |
| Resolver.EnumPairsLast | data_loader.py:128 | The last pair for a value's text carries the label of the last row with that value. |
| Text.IsSpace | data_loader.py:96-99 | The characters argument-less `str.strip()` removes: CPython's whitespace table. It is used by `Text.Strip` and `Text.AllSpace`. |
| Text.Strip | data_loader.py:96-99 | The result is no longer than the input, and it neither starts nor ends with whitespace. |
| Text.StripCharacterised | data_loader.py:96-99 | The result of `Strip` is a slice of the input with only whitespace before and after it. |
| Text.StripUnique | data_loader.py:96-99 | Only one slice meets that characterisation, so the characterisation is an independent definition of `Strip`. |
| Text.StripOfStripped | data_loader.py:99 | A string with no whitespace at either end is its own strip. |
| Text.StripIdempotent | data_loader.py:99 | Stripping twice is stripping once. |
| Text.StripEmptyIffAllSpace | data_loader.py:96 | `s.strip() == ""` holds exactly when `s` is all whitespace. |
| Text.StripKeepsOut | data_loader.py:99 | Stripping adds no character, so a piece without a comma stays without one. |
| Text.StripAll | data_loader.py:99 | The list comprehension strips each piece and keeps their number and order. |
| Text.StripAllStripped | data_loader.py:99 | Pieces that are already stripped are left unchanged. |
| Text.Split | data_loader.py:99 | There are (number of separators + 1) pieces, and no piece contains the separator. |
| Text.JoinSplit | data_loader.py:99 | Joining the pieces of a split with the separator gives the original string back. |
| Text.SplitJoin | data_loader.py:99 | Splitting a join of separator-free pieces gives those pieces back, with empty pieces kept. |
| Decimal.IntToString | data_loader.py:128 | `str(v)` is non-empty, has a leading '-' exactly for negative values, and is otherwise the digits of the value without leading zeros. |
| Decimal.ParseIntToString | data_loader.py:128 | Reading the text back gives the value, so `str` loses nothing. |
| Decimal.IntToStringInjective | data_loader.py:128 | Two values have the same text exactly when they are equal. Distinct values therefore give distinct keys. |
| Decimal.IntToStringInjectiveAll | data_loader.py:128 | The same injectivity for every pair of values at once, as the enum-dictionary lemmas use it. |
| Seqs.FirstMatch | data_loader.py:90 | `df[mask].iloc[0]` is the first element satisfying the mask. It is absent exactly when none does. |
| Seqs.TryMap | data_loader.py:101-131 | A loop whose body may raise succeeds exactly when every element does. It then gives one result per element, in order, and otherwise the error of the first element that fails. |
| Seqs.Dedup | data_loader.py:127-129 | Each element appears once, and no element is lost or invented. |
| Seqs.DedupOrder | data_loader.py:127-129 | Elements appear in the order of their first occurrence. |
| Seqs.DedupSize | data_loader.py:127-129 | The length is the number of distinct elements. |
| Seqs.DedupMap | data_loader.py:128 | An injective renaming, here `str` of the values, commutes with de-duplication. |
| OrderedMap.Get | data_loader.py:127-129 | A lookup finds a key exactly when the key is present, and returns a value stored under it. |
| OrderedMap.Put | data_loader.py:127-129 | `d[k] = v` inside `dict(...)`: a present key is overwritten in place and a new key is appended. `OrderedMap.PutKeys`, `OrderedMap.PutGet` and `OrderedMap.PutFresh` state this. |
| OrderedMap.PutKeys | data_loader.py:127-129 | `d[k] = v` appends a new key at the end and leaves the key order alone for a present key. |
| OrderedMap.PutGet | data_loader.py:127-129 | After `d[k] = v`, `d[k]` is `v` and every other key reads as before. |
| OrderedMap.PutFresh | data_loader.py:127-129 | A new key becomes the last entry, and the earlier entries are unchanged. |
| OrderedMap.FromPairs | data_loader.py:127-129 | `dict(pairs)` has distinct keys. |
| OrderedMap.FromPairsKeys | data_loader.py:127-129 | The keys are the pair keys in first-occurrence order. |
| OrderedMap.FromPairsGet | data_loader.py:127-129 | Each key maps to the value of its last pair (the `LastValue` reference). |
| OrderedMap.FromPairsSize | data_loader.py:127-129 | There is one entry per distinct key. |
| OrderedMap.FromPairsDistinct | data_loader.py:127-129 | Pairs with distinct keys all survive, in their own order. |
| Loader.Load | data_loader.py:35-70 | A cached call returns the cache, changes nothing and reads nothing. An uncached call reads once and returns what was read. A successful result is what the cache now holds, and a failed read leaves the cache empty, because the read raises before the assignment at line 69. |
| Loader.Session | data_loader.py:35-70 | Every call of a sequence of calls has a result, and the number of reads never decreases. |
| Loader.CachedSessionNeverReads | data_loader.py:38-39 | Once the cache is filled, no later call reads. Every later call returns the cached tables, whatever the files now hold. |
| Loader.SessionReadsUntilFirstSuccess | data_loader.py:35-70 | A fresh process reads until the first successful read and never after it. The results up to that call are what was read, and every later result is the tables of that call. |
| Loader.FailingSessionAlwaysReads | data_loader.py:35-70 | While every read fails, the cache stays empty. Every call reads again and raises what its read raised, so the read count grows by one per call. |
| Loader.ReadAtMostOnce | data_loader.py:35-70 | When reads succeed, a process reads at most once, and every call returns the tables of the first call. |
| Cli.Lookup | data_loader.py:156-173 | The command is shown exactly when the resolver returns, and then with the resolver's result. It is reported as not found, under the requested name, exactly when the resolver would raise `CommandNotFound`. Any error is the resolver's own, and it can only be `NullType`. |
| Cli.HasCommand | data_loader.py:156 | `name in commands_df['Command'].values` holds exactly when the resolver finds a row for the name, so the membership test and `.iloc[0]` agree. |
| Scenarios.SetModeResolves | data_loader.py:89-133 | On the sample `CMD_SET_MODE` rows the resolver returns hex code `0xB104`, the description, and one enum parameter `Mode` labelled 0 SAFE, 1 LIVE, 2 TEST. |
| Scenarios.NonexistentCommandFails | data_loader.py:90 | An unknown name fails with `CommandNotFound` and gives no partial result. |
| Scenarios.EmptyPiecesKept | data_loader.py:99 | `"A,,B"` gives the ids `A`, an empty id, and `B`. |
| Scenarios.LoneCommaKept | data_loader.py:99 | A `Params` cell holding only `","` gives two empty ids. |
| Scenarios.PiecesStripped | data_loader.py:99 | `" Roll , Pitch "` gives `Roll` and `Pitch`. |
| Scenarios.BlankParams | data_loader.py:96-97 | A whitespace-only cell gives no ids. |
| Scenarios.RepeatedValueOverwrites | data_loader.py:127-129 | Values 1, 2, 1 labelled A, B, C give the dictionary {1: C, 2: B}. |

## Left out

- CSV reading and dtype coercion (data_loader.py:41-66) are pandas I/O. `Loader.Load` takes the outcome of the read as a parameter (`Storage`), and `LoadError` stands for any exception the read raises.
- `main`'s argument parsing, its prompt and the stripping of typed input, and its printing (data_loader.py:143-154, 161-173) are console I/O. `Cli.Lookup` returns what would be printed as a `Report`. The not-found path only prints and does not exit with an error status.
- The Polars, Parquet and chunked loaders in `_archive/data_loader_optimized.py` are library I/O. Their cache has the same shape as the one modelled in `Loader`.
- The benchmark scripts in `_archive/` and `archive/` only time and print.
- `app.py` is a Streamlit user interface, and its search filter relies on regular-expression matching with case folding.
- `generate_data.py` writes sample CSV files. Its `CMD_SET_MODE` rows appear in `Scenarios` as a concrete case.
- Unicode: whitespace is CPython's fixed whitespace set for `str.strip()`. No normalisation or case folding is modelled.
- A table missing a column is outside the model. `read_csv` loads such a file and the cache keeps it, and the `KeyError` then comes from the resolver on each call that reads the missing column (for example data_loader.py:90 for `Command`, data_loader.py:128 for `Value`); a call that never reads it resolves normally. `Tables` always has every column.
- The cache returns the same tuple object on every call (data_loader.py:39). The model returns an equal value; object identity is not modelled.
- Concurrency: the global cache is modelled for one thread of calls.
- Text.Strip: its own contract gives only the length bound and the non-space ends. The full behaviour is stated by `Text.StripCharacterised` and `Text.StripUnique`.
- Resolver.ResolveParam: its own contract states only the record name and the error. The behaviour of each branch is stated by `Resolver.ResolveUnknownParam` and `Resolver.ResolveKnownParam`.
- Resolver.EnumValues: its own contract states only when there is a dictionary and that its keys are distinct. The contents are stated by `Resolver.EnumValuesKeys`, `Resolver.EnumValuesGet` and `Resolver.EnumValuesSize`.
- OrderedMap.FromPairs: its own contract states only distinct keys. The keys and values are stated by the `FromPairs…` lemmas.
- Loader.Session: its own contract states only the number of results and that reads never decrease. The behaviour is stated by the three session lemmas.
