# fapt core, modelled in Dafny

fapt is a Debian archive client. This project models its pure core:

- **Architecture tokens and version constraints** (`Architecture`, `Versions`). The closed
  architecture vocabulary is parsed and printed, and constraint operators are evaluated over a
  three-way ordering.
- **Two generations of the package-record parser over an RFC822 field map**:
  - the eager parser of `src/parse/types.rs` (`LegacyPackage`);
  - the newer parser of `src/parse/pkg.rs`, with its lazily cached `priority()` and
    `section()` (`Packages`).

  Both share the map accessors (`Rfc822`), the priority codec (`Priorities`), the record types
  (`Records`), the Rust text helpers (`RustText`) and the `u64` reader (`Numbers`).
- **Release index resolution** of `fapt-pkg/src/lists.rs` (`Lists`). It picks the compressed or
  raw index file for a base name and decides which hashes describe it.
- **The C++ source-record dumper** of `main.cpp` (`SourceDump`). This covers:
  - `take_mandatory` and `take_optional`;
  - `split` with its trimming (`CppText`);
  - the priority and format tables;
  - `Package-List` line decomposition;
  - the Vcs collection through a `std::map`, modelled as a sorted association list
    (`SortedMap`);
  - the whole `render` pipeline from a record's field map to the message it writes.

Everything is a pure function over immutable values.

Errors are values. The Rust `Result` becomes `Results.Result`, and a C++ `std::runtime_error`
becomes `SourceDump.Failure`, carrying the message text.

Some helpers are called but their code is not part of this model: `ident::read`, `yes_no`,
`rfc822::joined`, `deps::read`, `src::*`, `vcs::extract`, the newer `bin`/`src` parsers, hex
encoding and the Debian version comparator. Each one is a function-typed parameter. The
contracts say what the parsers do with these helpers' answers, never what the answers are.

Points where the code behaves in a way a reader might not expect, all modelled as the code does:

- `find_file` returns the release entry's path as listed. No base URL is joined onto it.
- The Rust `section()` calls `unwrap` on a cache that is still empty when "Section" is absent.
  That case panics, so it is a precondition (`Packages.SectionReadable`).
- `render` copies the whole Architecture field as the single element of the `arch` list. It
  does not split the field.

## Model

| member | source | states |
|---|---|---|
| Architecture.ParseArch | src/parse/types.rs:149-175 | a token that parses yields an architecture other than `ParserBug` that prints back as the same token; any other token is an "unrecognised arch" error naming it |
| Architecture.ShowArch | src/parse/types.rs:177-205 | printing fails exactly for `ParserBug` |
| Architecture.ShowArchInVocabulary | src/parse/types.rs:177-205 | every architecture other than `ParserBug` prints as a vocabulary token |
| Architecture.ParseArchIffVocabulary | src/parse/types.rs:152-175 | a token parses if and only if it is one of the eighteen vocabulary strings |
| Architecture.ShowThenParse | src/parse/types.rs:149-205 | printing then parsing any architecture except `ParserBug` gives it back |
| Architecture.VocabularyDistinct | src/parse/types.rs:152-175 | the vocabulary has eighteen pairwise distinct tokens |
| Architecture.ParseInjective | src/parse/types.rs:152-175 | two tokens that parse to the same architecture are the same token |
| Architecture.ParseArches | src/parse/types.rs:313-318 | the Architecture field parses if and only if each whitespace-separated token does; the set holds exactly the parsed tokens' architectures and never `ParserBug`; a failure names the first token that does not parse, every token before it having parsed |
| Architecture.CollectArchesFirstFailure | src/parse/types.rs:313-318 | `collect` over the tokens stops at the first one that fails and reports that one |
| Architecture.ParseArchesSingle | src/parse/types.rs:313-318 | a field holding one recognised token parses to exactly that one architecture |
| Versions.OperatorSatisfiedBy | src/parse/types.rs:479-492 | an operator holds of an ordering exactly when its relation holds between the ordering's sign and zero |
| Versions.OperatorAlgebra | src/parse/types.rs:479-492 | Eq, Lt and Gt hold iff the ordering is Equal, Less or Greater; exactly one of them holds; Ge is Gt or Eq and equals not Lt; Le is Lt or Eq and equals not Gt |
| Versions.SatisfiedBy | src/parse/types.rs:473-476 | a constraint accepts a candidate exactly when its operator relates the comparator's verdict on (candidate, constraint version) |
| Versions.SelfSatisfaction | src/parse/types.rs:473-492 | for any total comparator, a version satisfies a constraint on itself iff the operator is Ge, Le or Eq |
| Versions.SwapSides | src/parse/types.rs:473-492 | `v op w` holds iff `w flip(op) v` holds, for an antisymmetric comparator |
| Versions.LowerBoundUpwardClosed | src/parse/types.rs:473-492 | a `>=` constraint that accepts a version accepts every version at or above it |
| Versions.GreaterThanExample | src/parse/types.rs:589-593 | with `>> 1.0`, "2.0" is accepted and "1.0" is rejected |
| Priorities.ParsePriority | src/parse/pkg.rs:180-191 | an accepted string is the name of the priority it yields; any other string is an "unsupported priority" error naming it |
| Priorities.ParsePriorityName | src/parse/pkg.rs:180-191 | each of the seven priorities' names parses back to that priority |
| Priorities.ParsePriorityIffNamed | src/parse/pkg.rs:180-191 | a string parses if and only if it names one of the seven priorities |
| Numbers.ParseU64 | src/parse/types.rs:380 | an accepted Installed-Size is an optional '+' followed by digits whose value is below 2^64; anything else is a parse error |
| Numbers.DecimalValue | src/parse/types.rs:380 | the decimal rendering of a number has that number as its digit value |
| Numbers.ParseDecimal | src/parse/types.rs:380 | every number below 2^64 written in decimal parses back to itself |
| Numbers.ParseRejectsOverflow | src/parse/types.rs:380 | a number of 2^64 or more written in decimal is rejected |
| Rfc822.OneLine | src/parse/types.rs:380 | a field read as one line succeeds exactly when it has one line, and yields that line |
| Rfc822.Remove | src/parse/types.rs:418 | yields the field's lines iff the key is present, and the map loses exactly that key |
| Rfc822.TakeErr | src/parse/types.rs:420-423 | succeeds iff the key is present, returning its lines and removing exactly it; otherwise a "missing key" error naming the key |
| Rfc822.TakeOneLine | src/parse/types.rs:425-427 | succeeds iff the key is present with one line; a missing key and a multi-line field give their own errors |
| Rfc822.RemoveOneLine | src/parse/types.rs:429-433 | an absent key is `None` with the map untouched, not an error; a one-line field is returned and removed; a multi-line one is an error |
| Rfc822.GetOneLine | src/parse/pkg.rs:74-78 | reads without removing: succeeds iff the key is present with one line; a missing key and a multi-line field give their own errors |
| Rfc822.GetIfOneLine | src/parse/types.rs:435-438 | reads without removing: yields the line iff the key is present with exactly one line |
| Rfc822.RemoveOrEmpty | src/parse/types.rs:404-412 | yields the field's lines, or none when absent, and removes the key |
| RustText.SplitWhitespace | src/parse/types.rs:316 | every piece is a non-empty whitespace-free word, and the pieces concatenate to the input with its whitespace removed |
| RustText.SplitWhitespaceMaximal | src/parse/types.rs:316 | the input is the pieces with whitespace runs around them and a non-empty run between each two, so every piece is a maximal run |
| RustText.SplitWhitespaceUnique | src/parse/types.rs:316 | any reading of the input as words separated by non-empty whitespace is exactly the pieces returned |
| RustText.SplitJoinSpaced | src/parse/types.rs:316 | splitting words joined by single spaces gives the words back |
| LegacyPackage.InstalledSize | src/parse/types.rs:379-382 | an absent Installed-Size is 0; a one-line value is exactly its `u64` parse, accepted or rejected as that parse is; any other line count is the "not one line" error |
| LegacyPackage.Flag | src/parse/types.rs:384-394 | an absent Essential or Build-Essential flag is false; a present one is what `yes_no` says |
| LegacyPackage.ParseDepFields | src/parse/types.rs:404-412 | each relation field is parsed from its lines (none when absent), in order; all succeed iff each does; the relation fields are consumed |
| LegacyPackage.ParseFlags | src/parse/types.rs:379-394 | the flags are read from the map as `FlagsRead` describes, and the flag fields are consumed; conversely any flags `FlagsRead` describes for the map are exactly the result |
| LegacyPackage.ParseTexts | src/parse/types.rs:401-403 | Description is required and joined; Source and Status are optional single lines; these fields are consumed; conversely any texts `TextsRead` describes for the map are exactly the result |
| LegacyPackage.ParseBin | src/parse/types.rs:374-414 | a binary record has no file; its flags, texts and nine relations are read from the map; exactly the binary fields are consumed |
| LegacyPackage.ParseBinComplete | src/parse/types.rs:374-414 | any binary `BinaryRead` describes for a map is exactly what `parse_bin` returns, with the binary fields consumed |
| LegacyPackage.FlagsThenTexts | src/parse/types.rs:379-403 | flags and texts that the map describes are read in turn, the texts from what the flag step left |
| LegacyPackage.BinaryDepsComplete | src/parse/types.rs:404-412 | relations that the map describes are read, after the flag and text steps, to exactly those dependencies, leaving the map less the binary fields |
| LegacyPackage.ParseSrc | src/parse/types.rs:348-372 | a missing Format fails; a parsed source is read as `SourceRead` describes: Format, Directory and Standards-Version are single lines taken in turn, the Package-List, files and Vcs are the helpers' results on the map the previous step left, the six build relations are `parse_dep` of their fields and Uploaders is optional and read by `ident::read`; the tail fields are consumed, and the rest never gains keys when the helpers do not add any |
| LegacyPackage.ParseSrcHead | src/parse/types.rs:350-355 | Format, the Package-List, the files, Directory, the Vcs fields and Standards-Version are read in that order, each from the map the previous step left; a missing Format fails |
| LegacyPackage.ParseSrcTail | src/parse/types.rs:356-370 | each build relation is `parse_dep` of its lines (none when absent), Uploaders an optional single line read by `ident::read`, and exactly these fields are consumed |
| LegacyPackage.ParseSrcComplete | src/parse/types.rs:348-372 | any source and rest that `SourceRead` describes for a map are exactly what `parse_src` returns for it |
| LegacyPackage.DepFieldsComplete | src/parse/types.rs:356-365 | relation fields that each parse are read to exactly those values, consuming exactly those fields |
| LegacyPackage.ParseLead | src/parse/types.rs:313-324 | Architecture is required, one line, and its tokens must all parse; Original-Maintainer is optional and read by `ident::read`; both fields are consumed; a missing Architecture fails; conversely any lead `LeadRead` describes for the map is exactly the result |
| LegacyPackage.ParseNamed | src/parse/types.rs:326-334 | Package, Version, Priority, Section and Maintainer are required single lines, the priority and maintainer parsed; Homepage is an optional single line; exactly these fields are consumed; conversely any fields `NamedRead` describes for the map are exactly the result |
| LegacyPackage.ParseTitle | src/parse/types.rs:327-329 | Package and Version are required single lines and Priority a required single line that must parse; exactly these fields are consumed; conversely any title `TitleRead` describes for the map is exactly the result |
| LegacyPackage.ParseOwner | src/parse/types.rs:331-334 | Section and Maintainer are required single lines, the maintainer read by `ident::read`; Homepage is an optional single line; exactly these fields are consumed; conversely any owner `OwnerRead` describes for the map is exactly the result |
| LegacyPackage.ParsePkg | src/parse/types.rs:312-346 | the shared fields are read as `SharedRead` describes; `unparsed` is the map less exactly the shared fields; a missing Architecture fails first |
| LegacyPackage.ParsePkgComplete | src/parse/types.rs:312-346 | any package `SharedRead` describes for a map, with the rest as `unparsed`, is exactly what `parse_pkg` builds |
| LegacyPackage.Parse | src/parse/types.rs:292-302 | the record is a source package iff "Binary" is present, and the style parser's rest feeds the shared parser; a style-parser error is returned unchanged |
| LegacyPackage.ParseBinaryRecordComplete | src/parse/types.rs:292-302 | a record without Binary whose binary fields and remaining shared fields read as a binary and a package parses to exactly that package |
| LegacyPackage.ParseSourceRecordComplete | src/parse/types.rs:292-302 | a record with Binary whose source fields and remaining shared fields read as a source and a package parses to exactly that package |
| LegacyPackage.MissingRequiredFieldFails | src/parse/types.rs:313-332 | a record missing Architecture, Package, Version, Priority, Section or Maintainer fails to parse |
| LegacyPackage.BinaryDefaults | src/parse/types.rs:379-401 | a parsed binary record has Installed-Size 0 and Essential and Build-Essential false when those fields are absent, and had a Description |
| LegacyPackage.ParsedArchesPrintable | src/parse/types.rs:313-318 | a parsed package never holds `ParserBug` |
| LegacyPackage.ShowPackage | src/parse/types.rs:449-459 | with no arches it prints `name=version`; with one arch it prints `name:arch=version`, failing exactly when that arch is `ParserBug` |
| LegacyPackage.ShowOneArch | src/parse/types.rs:449-459 | a package whose one architecture was parsed from a token prints as `name:token=version` |
| LegacyPackage.ParsedBinaryFields | src/parse/types.rs:292-346 | a parsed binary record's name, version and architectures come from its own one-line Package, Version and Architecture fields |
| LegacyPackage.ShowSingleArchPackage | src/parse/types.rs:313-318 | a binary record whose Architecture is one vocabulary token prints as `Package:token=Version` |
| Packages.ParsePkg | src/parse/pkg.rs:141-178 | the shared fields are read as `PkgRead` describes; `unparsed` is the map less exactly Architecture, Original-Maintainer, Package, Version, Maintainer and Homepage; both caches start empty; only an arch-token failure carries the "reading Architecture" context |
| Packages.ParsePkgComplete | src/parse/pkg.rs:141-178 | any package `PkgRead` describes for a map, with the rest as `unparsed` and empty caches, is exactly what `parse_pkg` builds |
| Packages.Parse | src/parse/pkg.rs:72-92 | a missing or multi-line Package fails with the "no Package" context; a source-parser error is wrapped as "source fields in" the name, a binary-parser error as "binary fields in" it, and a shared-field error as "shared fields in" it; the record is a source package iff "Binary" is present; the result is consistent with empty caches |
| Packages.ParseBinaryRecordComplete | src/parse/pkg.rs:72-92 | a record without Binary, with a one-line Package, whose binary parser succeeds and whose remaining fields read as a package parses to exactly that package |
| Packages.ParseSourceRecordComplete | src/parse/pkg.rs:72-92 | the same for a record with Binary and the source parser |
| Packages.NameAgrees | src/parse/pkg.rs:74-78 | the name used for the error contexts is the parsed package's name |
| Packages.AsSrc | src/parse/pkg.rs:94-99 | yields the source part exactly for a source package |
| Packages.AsBin | src/parse/pkg.rs:101-106 | yields the binary part exactly for a binary package |
| Packages.ExactlyOneStyle | src/parse/pkg.rs:94-106 | every package is either a source or a binary package, never both |
| Packages.PriorityOf | src/parse/pkg.rs:108-124 | a cached priority is returned with nothing changed; otherwise Priority leaves `unparsed`; an absent field reads as Unknown; a multi-line field is the "not one line" error and a one-line unsupported value is the "unsupported priority" error naming it, with the cache still empty; only the cache and `unparsed` change |
| Packages.PriorityKeepsConsistent | src/parse/pkg.rs:108-124 | reading the priority keeps the cache and `unparsed` consistent |
| Packages.PriorityIdempotent | src/parse/pkg.rs:108-124 | after a successful read, reading again gives the same value and changes nothing |
| Packages.PriorityRetryAfterFailure | src/parse/pkg.rs:110-120 | after a failed read the field is gone, so a retry succeeds with Unknown |
| Packages.SectionOf | src/parse/pkg.rs:126-138 | a cached section is returned with nothing changed; otherwise Section leaves `unparsed` and is cached when it has one line, and is an error otherwise; only the cache and `unparsed` change |
| Packages.SectionKeepsConsistent | src/parse/pkg.rs:126-138 | reading the section keeps the cache and `unparsed` consistent |
| Packages.SectionIdempotent | src/parse/pkg.rs:126-138 | after a successful read, reading again gives the same value and changes nothing |
| Packages.SectionFailureIsFinal | src/parse/pkg.rs:126-138 | after a failed read the field is gone and the cache empty, so a further call would panic |
| Packages.AccessorsIndependent | src/parse/pkg.rs:108-138 | reading the priority leaves the section cache and the Section field alone |
| Lists.Suffix | fapt-pkg/src/lists.rs:12-19 | the suffix is empty exactly when uncompressed, and ".gz" for gzip |
| Lists.GzNameDiffers | fapt-pkg/src/lists.rs:39 | the gzip name of a base is never the base itself |
| Lists.LastWithFound | fapt-pkg/src/lists.rs:44-50 | the scan finds hashes for a name iff some entry has that name |
| Lists.LastWithBelongs | fapt-pkg/src/lists.rs:44-50 | what the scan finds are the hashes of an entry with that name, and no later entry has that name |
| Lists.LastWithSnoc | fapt-pkg/src/lists.rs:44-50 | an appended entry overrides earlier ones of its name and leaves the lookup of other names alone |
| Lists.FindFile | fapt-pkg/src/lists.rs:37-68 | fails with "file not found in release" iff no entry is named exactly `base`; the decompressed hashes are the raw entry's; with a gzip entry the path is `base.gz`, the codec gzip and the compressed hashes the gzip entry's; otherwise the path is `base`, uncompressed, with both hashes the raw entry's |
| Lists.FindFileScan | fapt-pkg/src/lists.rs:37-68 | the single pass over the entries computes exactly `FindFile` |
| Lists.FindFileExample | fapt-pkg/src/lists.rs:54-66 | with "Packages" and "Packages.gz" listed, the gzip file is chosen; with only "Packages", the raw file is |
| Lists.LastEntryWins | fapt-pkg/src/lists.rs:44-50 | when a name is listed several times, the last entry's hashes are used |
| Lists.Without | fapt-pkg/src/lists.rs:44-50 | keeps exactly the entries with another name |
| Lists.LastWithWithout | fapt-pkg/src/lists.rs:44-50 | dropping the entries of one name does not change the lookup of another |
| Lists.LocalNameIgnoresGz | fapt-pkg/src/lists.rs:31-34 | the local name is the same whether or not a gzip variant is listed |
| CppText.LTrim | main.cpp:399-403 | the result is a suffix of the input, what was dropped is whitespace, and it does not start with whitespace |
| CppText.RTrim | main.cpp:405-409 | the result is a prefix of the input, what was dropped is whitespace, and it does not end with whitespace |
| CppText.Trim | main.cpp:418-419 | the result is a slice of the input with only whitespace around it, and has no whitespace at either end |
| CppText.TrimTrimmed | main.cpp:399-409 | trimming a trimmed string changes nothing |
| CppText.Lines | main.cpp:417 | the getline pieces are empty only for the empty input |
| CppText.LinesFree | main.cpp:417 | no getline piece contains the delimiter |
| CppText.LinesJoinBack | main.cpp:417 | joining the pieces with the delimiter gives back the input, up to one final delimiter |
| CppText.Split | main.cpp:411-424 | there is one element per getline piece, in order, each the piece trimmed, so none has whitespace at either end |
| CppText.PieceEnd | main.cpp:417 | one getline read stops at the first delimiter at or after the start, or at the end of the text |
| CppText.SplitScan | main.cpp:411-424 | the getline-and-trim loop computes exactly `Split` |
| CppText.SplitJoin | main.cpp:411-424 | splitting trimmed, delimiter-free pieces joined by the delimiter gives them back when the last is not empty |
| CppText.LexIrreflexive | main.cpp:22 | no key orders before itself |
| CppText.LexTransitive | main.cpp:22 | the key order is transitive |
| CppText.LexTotal | main.cpp:22 | any two distinct keys are ordered one way or the other |
| CppText.LexAsymmetric | main.cpp:22 | two keys are never ordered both ways |
| SortedMap.Put | main.cpp:252 | `map[k] = v` keeps the list sorted; the entries are the new one and every old entry with another key |
| SortedMap.LookupPut | main.cpp:252 | after `map[k] = v`, `k` finds `v` and every other key finds what it found before |
| SortedMap.UniqueKeys | main.cpp:22 | in a sorted list the entry present for a key is the one a lookup finds |
| SortedMap.SortedSame | main.cpp:258 | two sorted lists with the same entries are equal, so the iteration order is fixed by the contents |
| SourceDump.TakeMandatory | main.cpp:372-382 | succeeds iff the key is present, returning its value and removing exactly that key; otherwise "mandatory key K is missing" |
| SourceDump.TakeOptional | main.cpp:385-395 | a present key's value is returned and the key removed; an absent key reads as "" and the map is unchanged |
| SourceDump.TakeLeavesOthers | main.cpp:372-395 | both take helpers leave every other entry present and unchanged |
| SourceDump.SetPriority | main.cpp:32-48 | an accepted string names the priority it yields, never Unknown; anything else is "unrecognised priority: S" |
| SourceDump.SetPriorityAgrees | main.cpp:32-48 | the C++ table accepts exactly what the Rust `parse_priority` accepts except "unknown", with the same result |
| SourceDump.SetPriorityName | main.cpp:32-48 | each priority other than Unknown is accepted under its name |
| SourceDump.ParseFormat | main.cpp:287-301 | an accepted string is the name of the format it yields; anything else is "unrecognised format: S" |
| SourceDump.ParseFormatName | main.cpp:287-301 | each of the four formats is accepted under its name |
| SourceDump.ParseFormatIffNamed | main.cpp:287-301 | a string is accepted iff it names one of the four formats |
| SourceDump.ParseListLine | main.cpp:160-173 | fewer than four space-separated parts is "failed to parse Package-List"; otherwise parts 0-3 are name, style, section and priority and the extras are parts 4 onwards in order |
| SourceDump.ListLineRoundTrip | main.cpp:160-173 | a line of space-separated words with a valid priority in fourth place parses back into those fields and extras |
| SourceDump.ParseListLinesOk | main.cpp:153-174 | all lines parse iff each line does |
| SourceDump.ParseListLinesValues | main.cpp:153-174 | when all lines parse there is one entry per line, in order, each that line's entry |
| SourceDump.ParseListLinesErr | main.cpp:153-174 | a failure is the error of the first line that fails, every line before it having parsed |
| SourceDump.RawEntries | main.cpp:175-180 | one entry per raw binary name, in order, with nothing else set |
| SourceDump.Binaries | main.cpp:136-181 | Binary and Package-List are consumed; an absent or empty list falls back to the raw names; otherwise too many lines is the "more than 'int' binaries" error, and the list parses iff its lines do, failing with the error its lines' parse reports |
| SourceDump.CollectVcs | main.cpp:245-253 | the collected map is sorted and holds exactly one entry per tag whose field is present and non-empty, with that field's value; every tag's field is consumed |
| SourceDump.TagType | main.cpp:261-281 | a tag has a Vcs type iff it is one of the nine |
| SourceDump.VcsOut | main.cpp:255-284 | the output has one entry per map entry, in map order, with the tag's type; it fails with "unreachable code" iff some key is not one of the nine tags |
| SourceDump.Vcses | main.cpp:244-285 | the entries are sorted by tag and are exactly the non-empty Vcs fields, the output mirrors them one-to-one and never fails, and all nine Vcs fields are consumed |
| SourceDump.VcsTagOrder | main.cpp:244-285 | with only Vcs-Arch and Vcs-Browser set, Arch is written before Browser although Browser is collected first |
| SourceDump.OptionalPriority | main.cpp:115-121 | an empty Priority leaves the priority unset; otherwise it goes through the priority table, failing as that does |
| SourceDump.ReadHeader | main.cpp:89-134 | succeeds iff Directory, Section, Maintainer and Architecture are present and the priority is acceptable; the header holds those fields, the optional ones unset when empty and the architecture as a one-element list; the rest is the record less the header fields; the failures come in source order: a missing Directory, Section or Maintainer, then a bad priority, then a missing Architecture |
| SourceDump.Files | main.cpp:199-242 | the files are the cursor's unless their count overflows `unsigned int`; the four file-list fields are consumed |
| SourceDump.Render | main.cpp:68-311 | a rendered message has the cursor's name and version, the header of `ReadHeader`, the cursor's files, binaries from Package-List or the raw names, the sorted Vcs entries of the record and a format whose name is its Format field; the leftover is the record less every consumed field; a header failure is the first failure |
| SourceDump.RenderSucceeds | main.cpp:68-311 | a record renders iff the header reads, the Package-List is empty or has at most `UINT_MAX` lines that all parse, the file count fits an `unsigned int`, and Format is present and names a format |
| SourceDump.RenderFailure | main.cpp:136-301 | after the header, the failure is the first in source order: too many binaries, a bad Package-List line, too many files, a missing Format, then an unknown format |
| SourceDump.BinariesStep | main.cpp:136-181 | the binaries step run after the header succeeds and fails exactly as the record's own Package-List decides |
| SourceDump.RenderAfterBinaries | main.cpp:199-301 | once the binaries are read, the file count and then the Format field decide the outcome |
| SourceDump.VcsFieldsKept | main.cpp:89-242 | the steps before the Vcs loop never touch a Vcs field, so the loop sees the record's own Vcs fields |
| SourceDump.LeftoverKeys | main.cpp:303-308 | what is left to report as not consumed is the record less every field `render` takes |

## Left out

- I/O and foreign calls. This covers fetching and caching (`src/fetch.rs`, `fapt-pkg/src/fetch.rs`), `main`, `load_single`, `temp_name`, apt's `pkgSrcRecords` cursor and capnp message building and writing. The cursor's package, version, binary names and files are plain inputs (`SourceDump.Cursor`), and the leftover fields are returned instead of printed.
- Checksum hashing, gzip decompression and GPG verification. The shown files do not implement them; `Hashes` is an opaque record of two fixed-length digests.
- Hex encoding in `local_name`. It is a parameter of `Lists.LocalName`.
- Debian version ordering (section 5.6.12 of Debian Policy). It comes from an external crate and is an abstract three-way comparator parameter.
- Helpers whose code is not part of this model. `ident::read`, `yes_no`, `rfc822::joined`, `deps::read`, `src::parse_format`, `src::take_package_list`, `src::take_files`, `vcs::extract` and the newer `bin::parse_bin`/`src::parse_src` are collaborator function parameters. `rfc822::one_line` is modelled as: exactly one line, else `NotOneLine` with the lines.
- The eager parser calls `super::parse_priority` from a module that is not part of this model. It is modelled by the same table as `src/parse/pkg.rs:180-191`.
- `load_single`'s RFC822 scanning in main.cpp. The record reaches `Render` already as a field map.
- SourceDump.Binaries: the raw-name fallback sizes the list with a `size_t` to `unsigned int` conversion. The model does not wrap that count, because it only overflows past four billion names.
- Packages.ParsePkg: the newer parser reads the architecture tokens with `super::arch`, which is not part of this model; the model reuses the vocabulary of src/parse/types.rs:149-175 for it. It also reads the newer map accessors (`get_value`, `remove_value`, `one_line_req`, `one_line`, `one_line_owned`) as behaving like the older `take_one_line` and `remove_one_line`: a missing required field is a "missing key" error, and a field that is not one line is a "not one line" error.
- LegacyPackage.Parse and Packages.Parse: the Rust parsers take `&mut Map` and consume fields as they go, so a failed parse leaves the caller's map partly consumed. The pure model returns only the error. No caller shown reads the map after a failure.
- SourceDump.Render: `Binaries()` returning an empty list is undefined behaviour (its first element is read before the end test). That case is a precondition rather than a modelled outcome.
- SourceDump.Files: apt looks up the SHA-512 digest under the name "Sha512". Whether that matches apt's own hash name is apt's business, so each file's digests are inputs.
- CppText.LexLess: `std::string` compares `char` values. The model compares Dafny characters, which agrees for ASCII keys, and every key it orders is an ASCII tag.
- The multiple-arch branch of `impl Display for Package` is `unimplemented!`. LegacyPackage.ShowPackage requires at most one arch.
- Build dependencies in main.cpp are compiled out (`#if 0`) and are not modelled.
