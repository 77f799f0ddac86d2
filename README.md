# Deus Ex: Human Revolution archive extractor, modelled in Dafny

This project models the entry point of `Gibbed.DeusEx3.Unpack`, the tool
that unpacks a Crystal Dynamics "big file" archive. Such an archive is a
series of numbered files `x.000`, `x.001`, `x.002`, … The index is read from
`x.000`, and that file is also part 0, so entries can lie in it. The model
follows the program step by step:

- It parses the command-line options. `-o`, `-nu`, `-ou`, `-f`, `-v`, `-h`
  and `-p` are applied in order. The tri-state unknown-file selection is
  decided by the last `-nu`/`-ou`.
- It checks the positional arguments: one or two of them, the first with
  extension `.000`. The output directory defaults to the input path with
  its `.000` removed, followed by `_unpack`.
- It compiles the filter pattern when one is given and it is not empty.
- It writes the manifest header: the endian, the base path and the
  alignment in X8.
- It runs the extraction loop over the index's entries in ascending block
  offset, with ties kept in table order.

For each entry the loop:

- turns the block offset into a part number and a byte offset in that part
  (`offset / (alignment / 2048)` and `(offset % (alignment / 2048)) * 2048`);
- closes the open part and opens part `n` when the part changes. Part `n` is
  the input path with its extension replaced by `.` and `n` padded with
  zeros to three digits. Part 0 is therefore the input path itself;
- names the entry:
  - a name found in the hash list has its slashes normalised and one
    leading `\` removed;
  - an unresolved hash becomes `__UNKNOWN\<ext>\<HASH>.<ext>`, with the
    extension that the type detector derives from the first
    `min(size, 64)` bytes;
- applies the unknown-file selection;
- prefixes the locale directory (`default` or the locale in X8);
- applies the filter;
- writes a manifest record, preceded by a locale comment whenever the locale
  changes;
- copies the payload unless the destination exists and overwriting is off.
  A failing copy is reported and the loop goes on.

The file system is three independent maps from path to contents: `disk`
holds the destinations the loop writes, `parts` the files it opens as
parts, and `archives` the index files that can be deserialised. A copy
into `disk` is therefore never seen by a later read of a part.
`Unpack.WellFormed` says that every index file is also a part file, which
holds on a real file system. The theorems that need this fact state it as a
hypothesis. The program's collaborators are given as values:

- the deserialised index;
- the project's name lists;
- the type detector;
- the regular-expression engine;
- the per-entry copy faults.

The loop is `Extraction.ExtractEntries`, a method over the local state of the
loop (`data`, `currentBigFile`, `lastLocale`, the manifest, the disk). It is
proved equal to `Extraction.Extract`, a fold of one step per entry. The
functions `Step`, `SwitchPart`, `Resolved`, `Emit` and `Store` are the
specification of one iteration. The methods `VisitEntry`, `OpenPartFor`,
`ResolveName`, `WriteRecord` and `CopyEntry` are the program's
code, each proved equal to its function. The theorems in `ExtractionLaws`
are about the fold:

- which exception a run raises;
- that parts are opened once each, in ascending order, with at most one
  part open at a time;
- that the manifest holds exactly the records of the extracted entries,
  with comments at locale boundaries;
- which files change on disk, and what they hold at the end;
- that copy faults change only the files.

`Unpack.Unpack` is the whole entry point, proved equal to `Unpack.Unpacked`.

Modules:

- `Types`: machine integers, `Option` and `Result`;
- `Hex`: X8 rendering;
- `Decimal`: `ToString` with `PadLeft`;
- `DotNetPath`: `System.IO.Path`;
- `CommandLine`;
- `BlockLayout`;
- `Naming`;
- `EntryOrder`: the stable `OrderBy`;
- `Manifest`;
- `Extraction`;
- `ExtractionLaws`;
- `Unpack`.

## Model

| member | source | states |
|---|---|---|
| CommandLine.SelectionIsLastWins | projects/Gibbed.DeusEx3.Unpack/Program.cs:51-66 | The selection is "include all" exactly when no `-nu`/`-ou` carries a value. Otherwise it is "known only" or "unknown only" according to the last such argument. |
| CommandLine.ParseFailsAtFirstRejected | projects/Gibbed.DeusEx3.Unpack/Program.cs:70-80 | Parsing fails exactly when some argument is rejected, and it fails with the message of the first rejected one. |
| CommandLine.CheckArguments | projects/Gibbed.DeusEx3.Unpack/Program.cs:82-95 | An invocation exists exactly when there are 1 or 2 extras, no help request, and a first extra with extension ".000". Equivalently, the first extra ends in ".000". The input is the first extra. The output is the second extra, or the input without ".000" followed by "_unpack". |
| Hex.X8 | projects/Gibbed.DeusEx3.Unpack/Program.cs:132 | Eight upper-case hexadecimal digits whose value is the number. |
| Hex.X8Injective | projects/Gibbed.DeusEx3.Unpack/Program.cs:247-248 | Two numbers render alike in X8 exactly when they are equal, so a manifest's hash and locale fields identify the entry's values. |
| Hex.X8Surjective | projects/Gibbed.DeusEx3.Unpack/Program.cs:247-248 | Every 8-digit upper-case hex string is the X8 rendering of its value, so X8 and `Value` are inverse. |
| Hex.DigitsOfValue | projects/Gibbed.DeusEx3.Unpack/Program.cs:132 | Rendering the value of a hex-digit string at the string's width gives the string back. |
| Decimal.ValueOfDecimal | projects/Gibbed.DeusEx3.Unpack/Program.cs:161 | The decimal rendering of `n` reads back as `n`. |
| Decimal.PadLeft | projects/Gibbed.DeusEx3.Unpack/Program.cs:161 | The result has width at least `width`, ends with the string, and is preceded only by padding characters. |
| Decimal.PaddedValue | projects/Gibbed.DeusEx3.Unpack/Program.cs:161 | Left-padding a decimal string with zeros keeps it decimal and keeps its value. |
| Decimal.PartNumberShape | projects/Gibbed.DeusEx3.Unpack/Program.cs:161 | The part number has at least 3 digits and value `n`. It has exactly 3 digits below 1000. From 1000 on, it is the plain decimal rendering, with no leading zero. |
| Decimal.PartNumberZero | projects/Gibbed.DeusEx3.Unpack/Program.cs:161 | Part 0 is numbered "000". |
| Decimal.PartNumberInjective | projects/Gibbed.DeusEx3.Unpack/Program.cs:160-161 | Different parts get different part numbers. |
| DotNetPath.Combine | projects/Gibbed.DeusEx3.Unpack/Program.cs:201-202 | An empty second path gives the first, and an empty first path gives the second. A rooted second path is the result alone. Otherwise the result is the first path, then one separator unless the first path already ends in one, then the second path. |
| DotNetPath.GetExtension | projects/Gibbed.DeusEx3.Unpack/Program.cs:85 | The extension is empty, or a suffix of the path that starts with '.', is at least two characters long, and has no further dot or separator. It is empty only when no '.' before the last character is followed by dot-free, separator-free characters up to the end. |
| DotNetPath.IndexExtensionIsSuffix | projects/Gibbed.DeusEx3.Unpack/Program.cs:85 | A path has extension ".000" exactly when it ends in ".000". |
| DotNetPath.StemShape | projects/Gibbed.DeusEx3.Unpack/Program.cs:95 | The stem is a prefix of the path. When it is shorter, the path continues with the '.' that starts its extension. When it is the whole path, the path has no extension dot. |
| DotNetPath.StemThenExtension | projects/Gibbed.DeusEx3.Unpack/Program.cs:95 | A path with an extension is its stem followed by its extension. |
| DotNetPath.ChangeExtensionShape | projects/Gibbed.DeusEx3.Unpack/Program.cs:160-161 | Without a new extension, or for an empty path, the result is the stem. Otherwise it is the stem, one '.', and the new extension. |
| DotNetPath.ChangeThenGetExtension | projects/Gibbed.DeusEx3.Unpack/Program.cs:160-161 | Setting a valid extension and then reading the extension back gives the extension just set. |
| DotNetPath.IndexPathExtension | projects/Gibbed.DeusEx3.Unpack/Program.cs:95 | A path with extension ".000" ends in ".000". Removing or changing its extension replaces exactly those four characters. |
| DotNetPath.ChangeExtensionOfPlainName | projects/Gibbed.DeusEx3.Unpack/Program.cs:199-200 | Giving a dot-free name an extension appends the extension. |
| BlockLayout.Translate | projects/Gibbed.DeusEx3.Unpack/Program.cs:137-147 | Translation is undefined (division by zero) exactly when the alignment is below 2048, the size of a block. |
| BlockLayout.TranslateRecovers | projects/Gibbed.DeusEx3.Unpack/Program.cs:137-147 | The part times the blocks per part, plus the block within the part, gives the offset back. The byte offset is block-aligned and lies below `maxBlocksPerFile * 2048 <= alignment`. The part is at most the offset. |
| BlockLayout.TranslateUnique | projects/Gibbed.DeusEx3.Unpack/Program.cs:146-147 | Any split of an offset into a part and an aligned in-part byte offset is the one that `Translate` computes. |
| BlockLayout.PartMonotone | projects/Gibbed.DeusEx3.Unpack/Program.cs:142-147 | A larger offset never lies in an earlier part. |
| BlockLayout.PartPathShape | projects/Gibbed.DeusEx3.Unpack/Program.cs:160-161 | Part `n` of index `x.000` is `x.` followed by the padded part number. Part 0 is the index file itself. |
| BlockLayout.PartPathInjective | projects/Gibbed.DeusEx3.Unpack/Program.cs:160-161 | Different parts are different files. |
| EntryOrder.StableOrder | projects/Gibbed.DeusEx3.Unpack/Program.cs:142 | Every position appears once, and the positions are ordered by key with ties in position order. |
| EntryOrder.InOrderUnique | projects/Gibbed.DeusEx3.Unpack/Program.cs:142 | There is exactly one such order, so any stable sort yields it. |
| EntryOrder.SortArrange | projects/Gibbed.DeusEx3.Unpack/Program.cs:142 | Arranging elements by the sorted positions is a permutation of them. |
| Extraction.VisitingOrder | projects/Gibbed.DeusEx3.Unpack/Program.cs:142 | The entries are visited by nondecreasing offset, each exactly once (a permutation). The order is the entries arranged by the stable order of their offsets. |
| Extraction.VisitingOrderIsStableSort | projects/Gibbed.DeusEx3.Unpack/Program.cs:142 | Any arrangement by an order of all positions that sorts the offsets and keeps ties in table order is the visiting order. |
| Naming.NormalizeKnownName | projects/Gibbed.DeusEx3.Unpack/Program.cs:212-216 | No '/' remains. Every character is the source's character with '/' turned into '\'. One leading separator is dropped and nothing else. |
| Naming.NormalizedNameLeadingSeparator | projects/Gibbed.DeusEx3.Unpack/Program.cs:212-216 | A normalised name still starts with '\' exactly when the list name starts with two separators. |
| Naming.UnknownName | projects/Gibbed.DeusEx3.Unpack/Program.cs:199-202 | For an ordinary extension the name is `__UNKNOWN\<ext>\<HASH>.<ext>`. For an empty extension it is `__UNKNOWN\<HASH>.`. |
| Naming.LocaleSegment | projects/Gibbed.DeusEx3.Unpack/Program.cs:219-226 | The segment is "default" exactly for locale 0xFFFFFFFF. Otherwise it is 8 hex digits whose value is the locale. |
| Naming.LocaleSegmentInjective | projects/Gibbed.DeusEx3.Unpack/Program.cs:219-226 | Different locales get different directories. |
| Naming.WithLocale | projects/Gibbed.DeusEx3.Unpack/Program.cs:219-226 | A non-empty relative name is placed under `<segment>\`. A rooted name is kept alone. An empty name gives the segment. |
| Naming.RootedNameLosesLocale | projects/Gibbed.DeusEx3.Unpack/Program.cs:212-226 | A list name starting with two separators stays rooted, and `Path.Combine` then drops the locale directory. |
| Naming.SelectionPolicy | projects/Gibbed.DeusEx3.Unpack/Program.cs:174-178 | An entry is skipped exactly when it is unresolved under "known only" or resolved under "unknown only". Under "include all" nothing is skipped. |
| Manifest.AnnotateRecords | projects/Gibbed.DeusEx3.Unpack/Program.cs:246-250 | Dropping the comments leaves one record per extracted entry, in order. |
| Manifest.AnnotateWellPlaced | projects/Gibbed.DeusEx3.Unpack/Program.cs:237-244 | Comments stand exactly where a new locale starts: the first record and each record whose locale differs from the previous record's. Each comment carries the locale of the record that follows it. |
| Manifest.RecordsAppend | projects/Gibbed.DeusEx3.Unpack/Program.cs:246-250 | The records of a concatenation are the concatenation of the records. |
| Extraction.ReadAt | projects/Gibbed.DeusEx3.Unpack/Program.cs:188-193 | A read returns at most `n` bytes. It is short exactly when it runs past the end. From a position inside the data it returns the bytes from there up to `n` bytes or the end, whichever comes first. From past the end it returns nothing. |
| Extraction.Sniff | projects/Gibbed.DeusEx3.Unpack/Program.cs:183-196 | The detector sees at most 64 bytes and at most `size` bytes. For a non-empty entry they are the bytes from the entry's offset, up to that bound or the end of the part. For an empty entry it sees nothing. |
| Extraction.Payload | projects/Gibbed.DeusEx3.Unpack/Program.cs:269-273 | The payload has at most `size` bytes. It is complete exactly when `size` is 0 or the slice fits. Otherwise it is the bytes from the offset to the end of the part. |
| Extraction.Emit | projects/Gibbed.DeusEx3.Unpack/Program.cs:237-250 | Writing a record changes only the manifest and `lastLocale`. |
| Extraction.Store | projects/Gibbed.DeusEx3.Unpack/Program.cs:266-282 | A copy changes only the disk and the failure reports. |
| Extraction.AbortPersists | projects/Gibbed.DeusEx3.Unpack/Program.cs:142-283 | Once an exception is raised, later entries change nothing. |
| Extraction.ResolveName | projects/Gibbed.DeusEx3.Unpack/Program.cs:171-226 | The naming branch as the program runs it equals `Resolved`. |
| Extraction.CopyEntry | projects/Gibbed.DeusEx3.Unpack/Program.cs:266-282 | The copy as the program runs it equals `Store`. |
| Extraction.OpenPartFor | projects/Gibbed.DeusEx3.Unpack/Program.cs:149-169 | The part switch as the program runs it equals `SwitchPart`. |
| Extraction.WriteRecord | projects/Gibbed.DeusEx3.Unpack/Program.cs:237-250 | The record and its locale comment as the program writes them equal `Emit`. |
| Extraction.VisitEntry | projects/Gibbed.DeusEx3.Unpack/Program.cs:144-282 | One loop iteration, on local variables, equals `Step`. |
| Extraction.ExtractEntries | projects/Gibbed.DeusEx3.Unpack/Program.cs:134-289 | The loop, stopping at the first exception and closing the open part at the end, equals `Extract`. |
| ExtractionLaws.StoreEffect | projects/Gibbed.DeusEx3.Unpack/Program.cs:266-282 | Only the destination changes. Without a fault it holds the payload. If `File.Create` fails the disk is unchanged. A copy failing part way leaves a prefix of the payload. The path is reported exactly when a fault occurs or the part ends early. |
| ExtractionLaws.ManifestOfRun | projects/Gibbed.DeusEx3.Unpack/Program.cs:228-250 | A run without an exception writes the annotated list of the entries that pass the selection and the filter. The comments are well placed and there is one record per extracted entry. |
| ExtractionLaws.PartsOfRun | projects/Gibbed.DeusEx3.Unpack/Program.cs:149-169 | Parts are opened and closed once per run of equal parts, strictly alternating, and nothing is open at the end. |
| ExtractionLaws.EachPartOpenedOnce | projects/Gibbed.DeusEx3.Unpack/Program.cs:142-169 | In offset order, every part holding an entry is opened exactly once, in ascending order. The events alternate: the `i`-th part is opened at event `2i` and closed at event `2i+1`. |
| ExtractionLaws.RunStatus | projects/Gibbed.DeusEx3.Unpack/Program.cs:137-168 | No exception is raised exactly when every entry's part file exists. Division by zero happens exactly when there is an entry and the alignment is below 2048. Otherwise the missing file is the part of the first entry, in visiting order, whose part file is absent. |
| ExtractionLaws.DiskOfRun | projects/Gibbed.DeusEx3.Unpack/Program.cs:234-282 | Only the destinations of records can change. With overwrite off, existing files never change. Every reported failure names a destination. |
| ExtractionLaws.CopyEffect | projects/Gibbed.DeusEx3.Unpack/Program.cs:266-282 | A copy changes no other path. Without a fault the destination holds the payload. The destination is reported exactly when a fault occurs or the payload is short. |
| ExtractionLaws.StepWrites | projects/Gibbed.DeusEx3.Unpack/Program.cs:144-282 | One iteration without an exception does to the files what its decision says: nothing for a skipped entry or a kept file, a copy otherwise. |
| ExtractionLaws.WrittenByRun | projects/Gibbed.DeusEx3.Unpack/Program.cs:234-282 | The files after a run without an exception are `Written`, computed from the archive and the options alone. |
| ExtractionLaws.LastCopyWins | projects/Gibbed.DeusEx3.Unpack/Program.cs:252-273 | With overwrite on, a destination that a later entry does not write holds the payload of the last entry that writes it, when that copy meets no fault. |
| ExtractionLaws.FirstCopyKept | projects/Gibbed.DeusEx3.Unpack/Program.cs:252-273 | With overwrite off, a destination absent at the start holds the payload of the first entry that writes it, when that copy meets no fault. |
| ExtractionLaws.FailuresWithOverwrite | projects/Gibbed.DeusEx3.Unpack/Program.cs:266-282 | With overwrite on, the reported failures are exactly the destinations of the copies that meet a fault or whose part ends early, in visiting order. |
| ExtractionLaws.FaultsChangeOnlyFiles | projects/Gibbed.DeusEx3.Unpack/Program.cs:266-282 | Copy faults and the files already present do not change the exception, the manifest or the opening of parts. |
| ExtractionLaws.DecideFilter | projects/Gibbed.DeusEx3.Unpack/Program.cs:228-232 | An extracted name matches the filter, and without the filter the entry keeps the same name. |
| ExtractionLaws.DecideSelection | projects/Gibbed.DeusEx3.Unpack/Program.cs:174-178 | Resolved entries are skipped under "unknown only" and unresolved ones under "known only". With no filter and no selection, every entry is extracted. |
| ExtractionLaws.DecideName | projects/Gibbed.DeusEx3.Unpack/Program.cs:171-226 | An extracted entry is named by its normalised list name, or by its hash and the type detected from its first bytes, under the locale directory. |
| Unpack.HeaderOf | projects/Gibbed.DeusEx3.Unpack/Program.cs:130-132 | The endian attribute is "little" exactly for a little-endian archive and "big" exactly for a big-endian one. The alignment attribute is 8 hex digits whose value is the alignment. The base path is the archive's. |
| Unpack.Unpack | projects/Gibbed.DeusEx3.Unpack/Program.cs:44-134 | The entry point as run equals `Unpacked`: option errors, usage, an invalid pattern, a missing index, or the extraction. |
| Unpack.ArgumentOutcomes | projects/Gibbed.DeusEx3.Unpack/Program.cs:70-113 | Each early exit happens exactly under its condition, checked in the program's order. An option error happens when parsing fails. Usage is shown under the argument conditions. An invalid pattern is a given, non-empty pattern that fails to compile, whether or not the index exists. A missing index is reported when the pattern is fine and the input is not a readable index, and it names the input. Otherwise the extraction starts, from an existing `*.000` index. |
| Unpack.ExtractionOutcome | projects/Gibbed.DeusEx3.Unpack/Program.cs:134-289 | The extraction of an invocation divides by zero exactly when the table is non-empty and the alignment is below 2048. Without an exception it opens each part once, in ascending order, and writes the annotated manifest. When every index file is a part file, a missing part is never the index itself but part `n` for some `n > 0`. |
| Unpack.MissingLaterPart | projects/Gibbed.DeusEx3.Unpack/Program.cs:149-168 | When the index file can be opened as a part, a part file found missing is the path of some part `n > 0`, never the index. |

## Left out

- `unpack.py` is not part of this model. It is process orchestration, downloads and audio conversion, with no logic of the extractor's own.
- `BigArchiveFileV2.Deserialize` and `ProjectData.Manager.LoadLists` (lines 103-117) are not part of this model. The index is an `Archive` value and the name lists are a map from hash to name. The exceptions these calls raise are not modelled.
- The "no active project" warning (lines 104-107) is console output only.
- `FileExtensions.Detect` (line 196) is an uninterpreted function from the sniffed bytes to an extension.
- The regular-expression engine (line 100) is a parameter that returns a predicate, or nothing when the pattern does not compile. Regex semantics and `IgnoreCase` are not modelled.
- XML syntax, indentation and the `ArchiveLocale` enum name inside a locale comment are not modelled. The manifest is a list of records and comments.
- The writing of `bigfile.xml` is not put into the disk map. The manifest is returned beside it.
- Console and verbose output, including the progress counter printing, are not modelled.
- `Directory.CreateDirectory` (lines 119 and 235) and the invalid-path-character checks of `System.IO.Path` are not modelled. Line 235 is outside the `try` of the copy. An exception there, for example when a file already stands where a directory of the destination should be, ends the whole run in the program. The model goes on with the next entry instead. Paths are compared as strings, so case-insensitive file systems are not captured.
- `name.StartsWith("\\")` is culture-sensitive in .NET. It is modelled as a plain first-character test.
- `Stream.WriteFromStream` is not part of this model. A copy that runs past the end of its part is modelled as a failure that keeps the available bytes.
- Copy failures come from a per-entry fault map keyed by the loop counter, standing in for the file system's nondeterminism.
- Extraction.ExtractEntries: the loop changes local values rather than open streams. Closing a stream is an event in a trace.
- A name in the hash lists is expected not to start with a separator. The code only removes one, and the model follows the code (`Naming.RootedNameLosesLocale`).
