# csv-analyzer in Dafny

A model of the two pieces of logic of its own that `csv-analyzer.py` contains, with
proofs of what they promise.

- **The archive walker** (`zip_information_extraction`). It opens a zip archive, picks the
  entries whose names end with one of the requested extensions and do not contain
  `__MACOSX`, and inspects each of them. It then walks every nested `.zip` entry the same
  way, with the child's origin written as the parent's origin, `"\\"` and the entry name.
  A `BadZipFile` ends the walk of the archive where it happens. The reports built so far
  are kept, so an archive that cannot be opened at all contributes nothing.
- **The file inspector** (`csv_information_extraction`). From the two pandas parses of a
  file, it builds either the full record or the degraded record. The full record holds the
  column and row counts, the delimiter, which null sentinels occur (`''` as `blank`, then
  `?`), the size, whether the first line looks like a header, and the set of column types.
  The degraded record is returned when a parse raised.

Modules:
- `Optional` (`optional.dfy`): the `Option` type.
- `Text` (`text.dfy`): `endswith`, `in` on strings, and `join`.
- `Inspector` (`inspector.dfy`): the inspector.
- `ArchiveWalker` (`walker.dfy`): the archive tree, and the walk as the function `Walk`,
  with its parts `Selected`, `FilePhase` and `ZipPhase`. It also holds the walker itself:
  the recursive method `ExtractZipInformation`, whose three loops are proved equal to
  those functions.
- `WalkerLemmas` (`walker_lemmas.dfy`): what the walk guarantees.

### The archive tree

In this model an archive is `Corrupt` when `zipfile.ZipFile` raises `BadZipFile` on it.
Otherwise it is `Zip(filename, entries)`, with the entries in central-directory order.

Each entry carries:
- its name, and the text `convert_size` makes of its size;
- whether `archive.open` on its name raises `BadZipFile`;
- what the inspector's pandas parses make of its bytes;
- what `zipfile.ZipFile` makes of its bytes.

In `zipfile`, looking up a name (`open`, `getinfo`) finds the last entry with that name, while
`namelist()` lists every entry. The model keeps both behaviours: `Find` and `NameList`.

## Model

| member | source | states |
|---|---|---|
| Text.Contains | csv-analyzer.py:26 | `sub in s` holds exactly when `sub` occurs in `s` at some position |
| Inspector.InTable | csv-analyzer.py:53 | `c in df.values` holds exactly when some row of the cell table contains `c` |
| Inspector.FoundNullChars | csv-analyzer.py:50-54 | the sentinel loop gives `["blank"]` if a cell is `''`, then `"?"` if a cell is `'?'`, in that order and nothing else |
| Inspector.NullCharCases | csv-analyzer.py:73 | `null_char` is None, `"blank"`, `"?"` or `"blank, ?"`, each exactly when its sentinels occur among the cells |
| Inspector.HeaderFlag | csv-analyzer.py:63 | `probably_header` holds exactly when the two type lists differ in length or at some column |
| Inspector.TypeNames | csv-analyzer.py:64 | the type set holds exactly the type names of the second parse, and has at most as many elements |
| Inspector.SuccessRecord | csv-analyzer.py:56-78 | when both parses succeed, the record takes its counts and delimiter from the header-less parse (so a header line counts as a row) and its types from the second parse; it also has the sentinel report, the given size, the header flag and all nine keys |
| Inspector.DegradedRecord | csv-analyzer.py:79-88 | when a parse fails, the record keeps `path` and `file`, has zero counts, no delimiter and no `null_char`, and only the six base keys |
| Inspector.ExtractCsvInformation | csv-analyzer.py:42-88 | the inspector returns the record that `SuccessRecord` and `DegradedRecord` describe; `size` defaults to `"0MB"` |
| ArchiveWalker.Find | csv-analyzer.py:29-32 | a listed name is looked up at an entry that has that name |
| ArchiveWalker.FindLast | csv-analyzer.py:29-32 | no later entry has that name: `open` and `getinfo` use the last entry with the name |
| ArchiveWalker.FilterMembers | csv-analyzer.py:26-27 | the filter keeps exactly the listed names that lack `__MACOSX` and end with the extension |
| ArchiveWalker.SelectedMembers | csv-analyzer.py:24-26 | a name is in `csv_files` exactly when it is listed, lacks `__MACOSX` and ends with one of the extensions |
| ArchiveWalker.CollectCsvFiles | csv-analyzer.py:24-26 | the `for ext` loop builds `csv_files` as `Selected`: one filtered list per extension, in order |
| ArchiveWalker.FileStopStays | csv-analyzer.py:28-39 | once `archive.open` raised in the entry loop, the later names change nothing |
| ArchiveWalker.ZipStopStays | csv-analyzer.py:34-39 | once `archive.open` raised in the nested-archive loop, the later names change nothing |
| ArchiveWalker.InspectFiles | csv-analyzer.py:28-32 | the entry loop, with its early exit on `BadZipFile`, computes `FilePhase` |
| ArchiveWalker.WalkNested | csv-analyzer.py:34-37 | the nested-archive loop, with its early exit on `BadZipFile`, computes `ZipPhase` |
| ArchiveWalker.ExtractZipInformation | csv-analyzer.py:19-39 | the walker returns `Walk` of its archive, extensions and origin override |
| WalkerLemmas.FilterMultiplicity | csv-analyzer.py:26-27 | the filter keeps every occurrence of a picked name and drops every other name |
| WalkerLemmas.SelectedMultiplicity | csv-analyzer.py:24-26 | a name outside `__MACOSX` appears once per occurrence per extension it ends with, so a name matching two extensions appears twice; a name with `__MACOSX` never appears |
| WalkerLemmas.SelectedByExtension | csv-analyzer.py:25-26 | selection is grouped by extension, in the order of the extensions |
| WalkerLemmas.FilterKeepsOrder | csv-analyzer.py:26-27 | within one extension, names keep the `namelist()` order |
| WalkerLemmas.FirstUnreadable | csv-analyzer.py:29 | the index of the first name whose `archive.open` raises: every earlier name opens, and that one does not |
| WalkerLemmas.FilePhaseUnfolded | csv-analyzer.py:28-32 | the entry loop reports exactly the names before the first unreadable one, and stops exactly when there is one |
| WalkerLemmas.ZipPhaseUnfolded | csv-analyzer.py:34-37 | the nested-archive loop yields the walks of the archives before the first unreadable one, in order, and stops exactly when there is one |
| WalkerLemmas.WalkOwnFiles | csv-analyzer.py:28-32 | a walk starts with the reports of the selected entries up to the first `BadZipFile`, each with the origin as its path, and is nothing more when one was raised |
| WalkerLemmas.WalkNestedArchives | csv-analyzer.py:34-36 | when no selected entry raised, the rest of the walk is the walks of the nested `.zip` entries up to the first that cannot be opened, in `namelist()` order, each with origin + `"\\"` + name |
| WalkerLemmas.CorruptArchive | csv-analyzer.py:22-39 | an archive that `zipfile` cannot open gives an empty result |
| WalkerLemmas.CorruptNestedDropped | csv-analyzer.py:34-39 | a corrupt nested archive adds nothing: the walks of its siblings before and after it are all still there, in order |
| WalkerLemmas.DefaultOrigin | csv-analyzer.py:31 | with no override, the origin is `archive.filename` |
| WalkerLemmas.NestExtends | csv-analyzer.py:35-36 | a nested path starts with its origin, and with origin + `"\\"` when it is nested at all |
| WalkerLemmas.NestJoin | csv-analyzer.py:35-36 | the path of an entry at depth N is the top origin and the N-1 enclosing `.zip` names joined with `"\\"` |
| WalkerLemmas.ZipPhaseMembers | csv-analyzer.py:34-36 | every report of the nested-archive loop comes from the walk of an openable nested archive, with the extended origin |
| WalkerLemmas.Provenance | csv-analyzer.py:28-36 | every report comes from a selected, openable entry of an archive reached through a chain of openable `.zip` entries; its path is the origin with the chain's names, and its `file` is the entry's name |
| WalkerLemmas.ReportedFiles | csv-analyzer.py:26-31 | every reported file lacks `__MACOSX`, ends with one of the extensions, and has a path starting with the origin |
| WalkerLemmas.NestedUnderOrigin | csv-analyzer.py:35-36 | every report from a nested archive has a path that extends the origin with `"\\"` |
| WalkerLemmas.FilePhasePaths | csv-analyzer.py:30-31 | the reports of an archive's own entries all carry the origin as their path |
| WalkerLemmas.OwnFilesFirst | csv-analyzer.py:28-36 | all reports of an archive's own entries come before any report from its nested archives, and those extend the origin with `"\\"` |
| WalkerLemmas.WalkCount | csv-analyzer.py:28-36 | there are at most as many reports as entries selected in the whole tree, and exactly as many when no `archive.open` the walk performs raises; entries it never opens are not constrained |
| WalkerLemmas.ZipPhaseCount | csv-analyzer.py:34-36 | the nested-archive loop yields at most the entries selected in the nested archives, and, when no `archive.open` performed by it or by the walks it starts raises, runs to the end and yields exactly that many |
| WalkerLemmas.UnopenedEntryIgnored | csv-analyzer.py:24-32 | an archive with an openable `.csv` entry and a `.txt` entry whose `archive.open` would raise gives one report: entries the walk never opens do not matter |

## Left out

- pandas parsing (csv-analyzer.py:46-48, 61), because it is a foreign library. What each parse yields is an input (`TableSource`): a failed parse is `None`, and any exception in the inspector gives the degraded record. Sniffing the delimiter, inferring the dtypes and reading the file are not modelled.
- Column types: each is represented by the name `str` gives it. The header flag compares these names, while the code compares pandas dtype objects.
- Cells: the table is the text of its cells. A column pandas parsed as numbers holds no `''` or `'?'`, so this does not change which sentinels are found.
- zipfile I/O (csv-analyzer.py:23, 29, 32, 35, 59-60), because the archive tree replaces it. Decompression, `seek` and handles are outside the model, and so is closing the files (the code never closes them).
- Errors other than `BadZipFile` from `archive.open` (encrypted entries, unsupported compression methods) or from `zipfile.ZipFile` reading a nested entry's stream (csv-analyzer.py:23 reached through line 35; a damaged deflated entry raises `zlib.error` or `EOFError`), because the walker does not catch them (line 37 catches only `BadZipFile`). Such an exception ends the whole program, and the model has no such outcome: an archive is either `Corrupt` or `Zip`.
- `convert_size` (csv-analyzer.py:9-16), because it relies on floating-point logarithms and number formatting. The size of an entry is the opaque string it returns. Only its `0 → "0B"` case is exact, and its `size_name` index is unchecked for sizes of 1024^9 bytes or more.
- The program's driver (csv-analyzer.py:91-133), because it is argument parsing, directory globbing and CSV output. The model stands in for its calls: `ExtractZipInformation` with no override is the directory branch's call at line 117. The call at line 123 passes no extension list and raises `TypeError` as written. Line 121 reports the working directory as the path of a single CSV file.
- The console messages (csv-analyzer.py:20, 38, 43, 80), because they are output only.
