# Skate trick catalog: resolver and catalog builder

This project models, in Dafny, the two halves of the skateboard trick catalog
engine.

- **Resolver** (`trick_catalog.py`). A query gives a trick as three signed
  rotation amounts: board spin, board flip and body spin. It also gives the
  rider's natural stance (Regular/Goofy), an active stance (e.g. Switch,
  Normal), and optionally a "late" trick. The rotations are first normalised:
  they are inverted once for a regular-footed rider and once more for a switch
  stance. The resolver then forms the lookup key `S{spin},F{flip},B{body}` and
  looks it up in the catalog. It composes a display name: the base name,
  prefixed with the active stance and a space unless that stance is "normal"
  in any letter case, then trimmed. It also copies any alternative names. A
  late trick is resolved the same way and appended as `… Late <name>`. A key
  that is not found gives the sentinel "Unknown Trick" or "Unknown Late
  Trick"; a miss never gives an error, as long as every rotation prints in at
  most 4300 digits (see "Left out").
  Loading the catalog builds a map from `compositeKey` to the entry, and a
  later entry with the same key wins.
- **Builder** (`convert_tricks.py`). It reads the rows of the trick
  spreadsheet. Blank and `#` comment lines are dropped. Rows with fewer than
  five cells, or whose first four cells are not integers, are skipped. Every
  other row becomes an entry with:
  - the key `S{spin},F{flip},B{body},A{activeStance}`;
  - a display name cut at the first `(`;
  - the four integers;
  - the alternative names found between the parentheses.

  The entries are collected, in row order, into a version "1.0" document.

The model is written in the style of pure functions over immutable data.

| module | file | what it models |
|---|---|---|
| `Wrappers` | `wrappers.dfy` | `Option`, for absent dictionary keys, absent output fields and failed parses |
| `PyStrings` | `pystrings.dfy` | Python's `strip` (with the exact `isspace` character set), `lower` (ASCII), `find`, `split`, slicing with negative and clamped bounds |
| `Decimal` | `decimal.dfy` | `str(int)` and `int(str)` |
| `Stance` | `stance.dfy` | `normalize_parameters` |
| `Keys` | `keys.dfy` | both composite-key formats and parsers for them |
| `CatalogStore` | `catalog_store.dfy` | the catalog dictionary of `load_trick_catalog` and `catalog.get` |
| `Resolver` | `resolver.dfy` | `process_trick` |
| `Aliases` | `aliases.dfy` | `extract_other_names` |
| `Builder` | `builder.dfy` | `create_trick_entry` and the per-line logic of `csv_to_trick_catalog` |

Wherever the code differs from its own comments, from the sample catalog
in `trick_catalog.py`'s header, or from what its names suggest, the model
follows the code:

- **Key formats.** The builder writes a key with a fourth `,A{activeStance}`
  component, but the resolver looks keys up without one. `Keys.KeySchemesDisjoint`
  and `Resolver.ResolveBuilderKeyedCatalog` prove the consequence: a catalog
  keyed by builder keys answers every resolver query with the sentinel names.
- **Name field.** The builder writes the name under `trickName`, but the
  resolver reads `canonicalName`. `Builder.BuilderEntry` and
  `CatalogStore.Entry` are therefore different records.
- **Missing `)`.** When `)` is missing, `find` returns -1, so the slice stops
  one character before the end of the name. `Aliases.ExampleUnclosed` shows
  "Kickflip (Flip" giving the alias "Fli".
- **Separators.** The comment before the split says aliases are separated by
  `+` or `,`, but only `,` is split on. A `+` stays inside an alias
  (`Aliases.ExamplePlusKept`).
- **Empty alias pieces.** Empty pieces between commas are kept as empty
  aliases (`Aliases.ExampleEmptyPiece`).
- **Default active stance.** The default active stance `""` is not "normal",
  so the prefix step gives `" " + name`. The final `strip()` removes that
  space again (`Resolver.ResolveDefaultStance`).
- **Output field.** The usage comments at the end of `trick_catalog.py` show
  the expected output under a `"result"` field, but the code writes the name
  under `"trickName"` (trick_catalog.py:76). The model's `Output` has
  `trickName`, and `Resolver.ExampleFakieVarial` and
  `Resolver.ExampleFakieVarialLate` state the expected names for that field.
- **Late example and the sample catalog.** The late query in the usage
  comments normalises to `(360, 0, 0)`, whose key is `S360,F0,B0`. The sample
  catalog in `trick_catalog.py`'s header (lines 21-26) maps only
  `S-360,F0,B0` ("FS Shuv"). With that sample the code would show
  "Fakie Varial Heelflip Late Unknown Late Trick", not the output the comment
  at trick_catalog.py:127 expects. That output needs a catalog entry for
  `S360,F0,B0`, so `Resolver.ExampleFakieVarialLate` takes one as a premise.

## Model

| member | source | states |
|---|---|---|
| Stance.Factor | trick_catalog.py:46-50 | the inversion factor is 1 or -1, and it is -1 exactly when one, but not both, of "natural stance is regular" and "active stance is switch" holds (case-insensitively) |
| Stance.Normalize | trick_catalog.py:39-51 | all three rotations are kept as they are when both or neither inversion applies, and are all negated otherwise |
| Stance.NormalizeInvolution | trick_catalog.py:39-51 | normalising twice under the same stances gives back the original triple |
| Stance.NormalizeIgnoresCase | trick_catalog.py:47-50 | stance spellings that differ only in letter case normalise alike |
| Stance.NormalizeNamedStances | trick_catalog.py:40-51 | the documented combinations: Regular+Switch and Goofy+Normal keep the triple; Regular+Normal/Fakie/Nollie and Goofy+Switch negate it; upper- and lower-case spellings behave the same |
| Keys.ResolverKeyRoundTrip | trick_catalog.py:65 | the lookup key `S…,F…,B…` parses back to exactly the triple it was formed from |
| Keys.ResolverKeyInjective | trick_catalog.py:65 | two triples share a lookup key if and only if they are equal |
| Keys.BuilderKeyRoundTrip | convert_tricks.py:33 | the builder's four-part key parses back to exactly its four integers |
| Keys.KeySchemesDisjoint | convert_tricks.py:33 | a builder key never equals a resolver key; neither key parser accepts the other format |
| Decimal.IntRoundTrip | convert_tricks.py:57-61 | `int()` applied to the decimal text of any integer, negative ones included, gives back that integer |
| Decimal.IntToStringInjective | trick_catalog.py:65 | distinct integers print differently |
| Decimal.ParseInt | convert_tricks.py:58-61 | parsing succeeds exactly when the text holds no information separator (U+001C to U+001F) and, once stripped, is an optional sign followed by at least one ASCII digit |
| Decimal.ParseIntPadded | convert_tricks.py:58-61 | a signed numeral surrounded by whitespace that `int()` skips parses to the numeral's value |
| Decimal.ParseIntRejectsSeparator | convert_tricks.py:57-64 | an information separator anywhere in a cell makes parsing fail, so the row is skipped as a `ValueError` |
| CatalogStore.Load | trick_catalog.py:36 | the catalog's keys are exactly the keys in the trick list; each key maps to the last entry in the list that carries it |
| CatalogStore.LoadLookup | trick_catalog.py:36 | a lookup succeeds exactly for keys some entry carries, and it returns an entry with that key that no later entry overrides |
| CatalogStore.LoadAppend | trick_catalog.py:36 | loading a concatenated list is loading each part, with the second part overriding the first |
| CatalogStore.LoadLastWins | trick_catalog.py:36 | an entry appended at the end always wins its key |
| CatalogStore.LoadDistinctSize | trick_catalog.py:36 | when no two entries share a key, the catalog has one entry per trick |
| Resolver.ProcessTrick | trick_catalog.py:53-101 | `lateTrickName` is present exactly when late parameters are given; `lateTrickOtherNames` only then; alias fields are never present with an empty list |
| Resolver.DisplayName | trick_catalog.py:70-73 | the displayed name is always trimmed at both ends |
| Resolver.ReadQueryDefaults | trick_catalog.py:58-65 | an input with no natural stance is read as a regular rider: its rotations are inverted for the lookup unless the active stance is switch |
| Resolver.ResolveAliases | trick_catalog.py:78-80 | `otherNames` is present exactly when the normalised key is found with a non-empty alias list, and then it is that list |
| Resolver.ResolveUnknown | trick_catalog.py:66-73 | a key that is not found gives no `otherNames`, and the name shown contains "Unknown Trick" whatever the stance prefix or late part |
| Resolver.ResolveNormalStance | trick_catalog.py:70-73 | an active stance equal to "normal" in any letter case adds no prefix |
| Resolver.ResolveStancePrefix | trick_catalog.py:71-73 | any other non-empty trimmed active stance is joined by one space to a non-empty trimmed base name |
| Resolver.ResolveDefaultStance | trick_catalog.py:59-73 | with the default active stance `""`, the name is the trimmed base name |
| Resolver.ResolveLate | trick_catalog.py:83-99 | a late trick is resolved under the same stances; `" Late " + name` (or the late sentinel) is appended to the name shown without it; `lateTrickName` holds that name; `otherNames` is unchanged; `lateTrickOtherNames` follows the same rule as `otherNames` |
| Resolver.ResolveMirror | trick_catalog.py:62-65 | a regular rider's query gives the same output as a goofy rider's query with every rotation negated, late part included |
| Resolver.ExampleFakieVarial | trick_catalog.py:107-115 | a regular rider's fakie `(-180, 360, 0)` is looked up as `S180,F-360,B0`; on a catalog that maps that key to "Varial Heelflip" it is shown as "Fakie Varial Heelflip" |
| Resolver.ExampleFakieVarialLate | trick_catalog.py:118-127 | the same query with the late trick `(-360, 0, 0)`, whose key is `S360,F0,B0`, is shown as "Fakie Varial Heelflip Late Frontside 360 Shuv" on a catalog that maps that key to "Frontside 360 Shuv", and `lateTrickName` is that name |
| Resolver.ResolveBuilderKeyedCatalog | trick_catalog.py:65-67 | against a catalog keyed in the builder's format, every lookup misses: the base shows "Unknown Trick" and the late part "Unknown Late Trick" |
| Aliases.ExtractOtherNames | convert_tricks.py:13-14 | a name without `(` has no aliases |
| Aliases.GroupAliases | convert_tricks.py:20-25 | a group containing `*` lists no aliases; otherwise it lists one alias per comma-separated piece, empty pieces included |
| Aliases.AliasGroupCases | convert_tricks.py:17 | the group is the trimmed text between the first `(` and the first `)` when that `)` follows; without `)`, it runs to one character before the end; it is empty when `(` ends the name or the first `)` precedes it |
| Aliases.AliasGroupNoClose | convert_tricks.py:17 | the group never contains a `)` |
| Aliases.AliasesAreClean | convert_tricks.py:11-25 | every extracted alias is trimmed and contains no `,`, `*` or `)` |
| Aliases.ExtractJoined | convert_tricks.py:11-25 | round trip: any non-empty list of trimmed aliases without `,`, `*`, `)`, written comma-separated in parentheses after a name, is extracted exactly |
| Aliases.ExtractCommaSpace | convert_tricks.py:17-25 | the spelling `name (a, b)` gives exactly the aliases `a` and `b` |
| Aliases.GroupCommaSpace | convert_tricks.py:24 | the space after a comma is trimmed from the following alias |
| Aliases.ExtractUnconfirmed | convert_tricks.py:20-21 | a `*` anywhere inside the parentheses suppresses all aliases |
| Aliases.ExtractUnclosed | convert_tricks.py:17 | without a `)`, the aliases are those of the rest of the name minus its last character |
| Aliases.GroupSingle | convert_tricks.py:24-25 | a group without `,` or `*` lists itself, trimmed, as its only alias |
| Aliases.ExamplePretzel | convert_tricks.py:11-25 | "Pretzel (360 Shuv, Pretzel Flip)" has the aliases "360 Shuv" and "Pretzel Flip" |
| Aliases.ExampleBigFlip | convert_tricks.py:20-21 | "Big Flip (*)" has no aliases |
| Aliases.ExampleOllie | convert_tricks.py:13-14 | "Ollie" has no aliases |
| Aliases.ExampleUnclosed | convert_tricks.py:17 | "Kickflip (Flip" has the single alias "Fli" |
| Aliases.ExamplePlusKept | convert_tricks.py:23-24 | "Shuv (Pop+Shove)" has the single alias "Pop+Shove": a `+` does not separate aliases |
| Aliases.ExampleEmptyPiece | convert_tricks.py:24 | "Shuv (a,,b)" has the aliases "a", "" and "b" |
| Builder.TrickNameClean | convert_tricks.py:30 | the display name is trimmed and never contains `(` |
| Builder.TrickNameWithoutGroup | convert_tricks.py:30 | a name without `(` is its own display name, trimmed |
| Builder.TrickNameBeforeGroup | convert_tricks.py:30 | the display name is the trimmed text before the first `(`, whatever follows it |
| Builder.CreateTrickEntrySound | convert_tricks.py:27-42 | the entry records the row's four integers; its key reads back as exactly those integers; its display name is clean; its aliases are clean |
| Builder.ParseFields | convert_tricks.py:54-64 | a row yields parameters exactly when it has at least five cells and the first four parse as integers, and then the parameters are those integers |
| Builder.LineEntry | convert_tricks.py:50-68 | a line contributes an entry exactly when it passes the content filter and its fields parse, and then the entry carries the parsed parameters |
| Builder.CsvToTrickCatalog | convert_tricks.py:44-75 | the document has version "1.0" and lists exactly the entries of the accepted lines, in order, never more entries than lines |
| Builder.AcceptedAppend | convert_tricks.py:52-69 | the entries of two line sequences in a row are the entries of the first followed by those of the second |
| Builder.AcceptedCorrespondence | convert_tricks.py:52-69 | every entry comes from an accepted line, in strictly increasing line order, and no accepted line is missed |
| Builder.RowOfPrintedFields | convert_tricks.py:57-68 | a content line whose first four cells print integers yields the entry for those integers and its trimmed fifth cell |
| Builder.CommentLineSkipped | convert_tricks.py:50 | a line whose first non-blank character is `#` contributes nothing, whatever its cells |
| Builder.BlankLineSkipped | convert_tricks.py:50 | a line of whitespace only contributes nothing |
| Builder.ShortRowSkipped | convert_tricks.py:54-55 | a row of fewer than five cells contributes nothing |
| PyStrings.StripUnique | trick_catalog.py:73 | `strip()` returns exactly the trimmed text that whitespace surrounds on both sides |
| PyStrings.StripIdempotent | convert_tricks.py:66 | stripping twice is the same as stripping once |
| PyStrings.Find | convert_tricks.py:17 | `find` returns the first index holding the character, or -1 exactly when it is absent |
| PyStrings.PySlice | convert_tricks.py:17 | slicing with in-range bounds is the subsequence; a stop of -1 drops the last character; crossed bounds give the empty string |
| PyStrings.Split | convert_tricks.py:24 | `split` gives one more piece than there are separators; no piece contains the separator; joining the pieces gives back the text |
| PyStrings.SplitJoin | convert_tricks.py:24 | splitting a join of separator-free pieces gives back exactly the pieces |

## Left out

- File I/O, JSON reading and writing, and the final `print` of both scripts are left out. The catalog comes in as a list of entries, the spreadsheet as a list of lines, and the document goes out as a value.
- CSV quoting and escaping are left out. Each line comes with the cells the CSV reader would give it, so quoted fields that span lines are not modelled.
- `int()` accepting `_` between digits and non-ASCII digits is left out. Those texts are rejected in the model.
- Decimal.ParseInt: CPython limits integer-string conversion to 4300 digits: `int()` raises `ValueError` on text with more digits, and `str()` and f-string formatting raise on an integer that long. The model has no such limit. So `Decimal.IntRoundTrip`, `Decimal.ParseIntPadded`, `Builder.RowOfPrintedFields` and the key f-strings (`Keys.ResolverKey`, `Keys.BuilderKey`) describe the source only for numbers of at most 4300 digits. Above it the builder skips the row (convert_tricks.py:58-64) where the model accepts it, and the resolver raises at trick_catalog.py:65 and :91 where the model resolves the query. The limit is a setting of the interpreter (`sys.set_int_max_str_digits`), not part of the source.
- `str.lower()` is modelled on ASCII letters only. For the three comparisons made ("regular", "switch", "normal"), this gives the same answer as full Unicode lowering. Only two non-ASCII characters lower to text containing ASCII letters. U+212A KELVIN SIGN lowers to `k`, which none of the three words contains. U+0130 lowers to two characters, one of them non-ASCII, so it cannot match.
- Missing `Spin`, `Flip` or `Body` keys are left out. They make the source fail on `None` arithmetic; in the model the three rotations are always present.
- Extra fields of an entry (`variant`, `parameters` on the resolver side) are left out because the resolver never reads them.
- Resolver.ProcessTrick: late parameters are present or absent; an empty `LateParams` dictionary, which Python treats as false, is modelled as absent.
- CatalogStore.Entry: every catalog entry is modelled with both `compositeKey` and `canonicalName` present. In the source, loading raises `KeyError` for an entry without `compositeKey` (trick_catalog.py:36), and a hit on an entry without `canonicalName` raises `KeyError` (trick_catalog.py:67 and 93). Entries written by the builder carry only `trickName`, so the model does not cover that error. With builder keys such a hit cannot happen, because every lookup misses (`Resolver.ResolveBuilderKeyedCatalog`).
- The rest of the repository (`visualize_tricks.py`, `test_catalog.py`) is not part of this model.
