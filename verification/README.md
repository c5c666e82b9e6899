# FLTK_WRAP_UI, modelled in Dafny

This project models the CMake command `FLTK_WRAP_UI` (class
`cmFLTKWrapUICommand`). The command runs in two passes over the makefile
state.

- `InitialPass` checks the arguments `(library, headerList, sourceList,
  scanList...)` and the `FLTK_WRAP_UI` switch. It then walks the named scan
  lists. For every file of those lists whose wrap-exclude flag is clear,
  whatever its extension, it builds a
  generated header record (extension `h`) and a generated implementation
  record (extension `cxx`) in the output directory. It attaches their
  dependency lists and appends them to the header list and the
  implementation list. It also remembers the original path and both records
  in three parallel member sequences.
- `FinalPass` walks those sequences by index. It declares one
  `${FLTK_FLUID_EXE} -h <h> -o <cxx> <original>` rule per entry, whose dependency
  list grows from rule to rule. Finally it writes `GENERATED_FLTK_FILES`: its
  prior value followed by a space, the header path, a space and the
  implementation path for each entry.

Files:

- `buildstate.dfy` (module `BuildState`) is the part of `cmMakefile` and
  `cmSourceFile` the command talks to. It is an immutable `Makefile` record
  (named source lists, definitions, an append-only rule log, the current
  source and output directories) with pure update functions.
- `fltkwrapui.dfy` (module `FltkWrapUi`) holds the command.
  - `InitialPass` is a pure function. `ScanLists` (outer loop) and
    `WrapFiles`/`WrapFile` (inner loop) replace the nested loops with
    recursion.
  - Reference definitions state what a pass produces in closed form:
    `Eligible`, `Wrapped`, `OrigNames`, `HeaderRecs`, `SourceRecs`,
    `Contribution`, `Rules`, `GeneratedSuffix` and `FinalState`.
  - `FinalPass` is a method with the source's loop. It is proved equal to
    `FinalState`.
- `fltkwrapuiproofs.dfy` (module `FltkWrapUiProofs`) relates the passes to
  the reference definitions. It also holds the properties across calls
  (non-atomic failure, double registration, accumulation across
  invocations) and a worked scenario.

Assumptions made about code that is not part of this model:

- `cmSystemTools::IsOff` is the parameter `isOff`.
- `cmSourceFile::GetFullPath` for a record named by `SetName(name, dir, ext)`
  is `dir + "/" + name + "." + ext`. This is the same shape `FinalPass`
  builds by hand.
- `cmMakefile::AddSource` appends to the named list and creates it when
  missing.
- `AddCustomCommand` stores a snapshot of the depends vector.

When GENERATED_FLTK_FILES is undefined and at least one file was wrapped,
the value FinalPass writes starts with a space, because every entry
appends `" " + hres + " " + cxxres` to an initially empty string
(Source/cmFLTKWrapUICommand.cxx lines 139 and 159);
`ScenarioOneWrappedOneExcluded` states it. With no wrapped file the value
is empty (`FinalStateCommands`).

`GetDefinition` models the `cmMakefile::GetDefinition` calls at lines 55
and 137. `OrigName` (lines 104-105), `HeaderPath` and `SourcePath` (lines
149-157) and `PriorGenerated` (lines 137-143) name expressions the source
writes inline at those lines. These five carry no contract of their own;
what they mean for the command is stated by the rows of `InitialPass`,
`DefinitionRoundTrip`, `AddDefinition`, `OrigNamesIndex`,
`RuleMatchesRecords`, `PriorGeneratedReads` and `FinalStateCommands`.

## Model

| member | source | states |
|---|---|---|
| BuildState.DefinitionRoundTrip | Source/cmFLTKWrapUICommand.cxx:137-176 | Definitions are overwritten key by key. Writing back the value GetDefinition just read leaves the makefile exactly as it was, and of two writes to the same key only the second is visible. |
| BuildState.AddSource | Source/cmFLTKWrapUICommand.cxx:114-117 | The named list gains exactly the given record at its end and exists afterwards. Every other list keeps its contents and its presence. Definitions, rules and directories are untouched. |
| BuildState.AddCustomCommand | Source/cmFLTKWrapUICommand.cxx:170-172 | The rule log is append-only. It grows by one rule, the given one, at its end, and cutting it back to its old length gives back exactly the makefile before the call, lists, definitions and directories included. |
| BuildState.AddDefinition | Source/cmFLTKWrapUICommand.cxx:176 | Reading the key afterwards yields the new value. Every other key reads as before, and lists, rules and directories are kept. |
| FltkWrapUi.HeaderFor | Source/cmFLTKWrapUICommand.cxx:96-100 | The header record keeps the file's name, lives in the output directory with extension h, is not excluded and depends on exactly the original path (line 111). Its full path, the `hname` of line 106, is `<out>/<name>.h`. |
| FltkWrapUi.SourceFor | Source/cmFLTKWrapUICommand.cxx:97-110 | The implementation record keeps the file's name, lives in the output directory with extension cxx and is not excluded. Its full path is `<out>/<name>.cxx`, which never equals the header's. Its depends list is the header's full path followed by the header's own depends list, that is the original path (lines 106, 109-111). |
| FltkWrapUi.Eligible | Source/cmFLTKWrapUICommand.cxx:89-94 | The filtered files are no more than the input files and none of them carries the wrap-exclude flag. |
| FltkWrapUi.WrapFile | Source/cmFLTKWrapUICommand.cxx:92-118 | An excluded file changes nothing. Any other file extends each of the three member sequences by its original path, header record and implementation record. Each list receives that file's header record if it is the header list and its implementation record if it is the implementation list. Only the header and implementation lists can come into existence. The names, definitions, rules and directories are kept. |
| FltkWrapUi.WrapFiles | Source/cmFLTKWrapUICommand.cxx:89-119 | The inner loop never changes the recorded names, the definitions, the rules or the directories. |
| FltkWrapUi.WrapFilesOrigs | Source/cmFLTKWrapUICommand.cxx:89-107 | Over one scan list, the original-path sequence grows by exactly the original paths of the non-excluded files, in list order. |
| FltkWrapUi.WrapFilesHeaders | Source/cmFLTKWrapUICommand.cxx:89-112 | Over one scan list, the header-record sequence grows by exactly one header record per non-excluded file, in list order. |
| FltkWrapUi.WrapFilesSources | Source/cmFLTKWrapUICommand.cxx:89-113 | Over one scan list, the implementation-record sequence grows by exactly one implementation record per non-excluded file, in list order. |
| FltkWrapUi.WrapFilesList | Source/cmFLTKWrapUICommand.cxx:89-117 | Over one scan list, every named list ends as its old contents followed by what the non-excluded files contribute to it, in file order. |
| FltkWrapUi.WrapFilesKeys | Source/cmFLTKWrapUICommand.cxx:89-117 | Over one scan list, a list exists afterwards exactly when it existed before, or is the header or implementation list and some file was wrapped. |
| FltkWrapUi.ScanLists | Source/cmFLTKWrapUICommand.cxx:80-120 | The outer loop keeps the recorded names, definitions, rules and directories and keeps the member sequences in lock-step. Its only failure is BadSourceList. |
| FltkWrapUi.InitialPass | Source/cmFLTKWrapUICommand.cxx:45-123 | Fewer than four arguments fail with ArgumentCount and leave everything unchanged. An undefined switch fails with WrapUndefined and an off switch with WrapOff, also leaving everything unchanged. BadSourceList is reported only when some scan-list name is unknown. Success implies both gates passed and the three names were recorded from the arguments. Definitions, rules and directories never change, and lock-step is preserved. |
| FltkWrapUi.ScanListsKnown | Source/cmFLTKWrapUICommand.cxx:80-88 | The scan succeeds if and only if every scan-list name is a known list. |
| FltkWrapUi.Rule | Source/cmFLTKWrapUICommand.cxx:161-172 | Entry k's rule has entry k's original path as its source and `${FLTK_FLUID_EXE}` as its command. Its arguments are `-h`, hres_k, `-o`, its output, then its source. Its output is cxxres_k and its target is the library. Its k+2 dependencies start with the fluid executable and end with hres_k. |
| FltkWrapUi.PriorGeneratedReads | Source/cmFLTKWrapUICommand.cxx:137-176 | The seed of the accumulator is the value GetDefinition reports for GENERATED_FLTK_FILES, or empty when it reports it undefined. After the write at line 176 the seed read back is exactly the value written. |
| FltkWrapUi.FinalState | Source/cmFLTKWrapUICommand.cxx:145-176 | The state after FinalPass keeps the earlier rules as a prefix and has exactly one more rule per header record. GENERATED_FLTK_FILES is always defined, every other definition reads as before, and the source lists and directories are unchanged. |
| FltkWrapUi.FinalPass | Source/cmFLTKWrapUICommand.cxx:125-178 | The loop produces exactly the closed-form final state. That state holds the prior rules followed by one rule per entry, in order. GENERATED_FLTK_FILES becomes its prior value (empty if undefined) followed by a space, the header path, a space and the implementation path for each entry. The source lists are untouched. |
| FltkWrapUiProofs.EligibleMembers | Source/cmFLTKWrapUICommand.cxx:94 | A file survives the filter if and only if it is in the scan list and its wrap-exclude flag is clear. |
| FltkWrapUiProofs.OrigNamesIndex | Source/cmFLTKWrapUICommand.cxx:104-107 | The k-th recorded original path is the source directory, a slash, the k-th wrapped file's name, a dot and its extension. |
| FltkWrapUiProofs.HeaderRecsIndex | Source/cmFLTKWrapUICommand.cxx:98-100 | The k-th header record is built from the k-th wrapped file. |
| FltkWrapUiProofs.SourceRecsIndex | Source/cmFLTKWrapUICommand.cxx:101-103 | The k-th implementation record is built from the k-th wrapped file. |
| FltkWrapUiProofs.OrigNamesConcat | Source/cmFLTKWrapUICommand.cxx:107 | Original paths of two consecutive batches of files are the two batches' paths concatenated. |
| FltkWrapUiProofs.HeaderRecsConcat | Source/cmFLTKWrapUICommand.cxx:112 | Header records of two consecutive batches are the two batches' records concatenated. |
| FltkWrapUiProofs.SourceRecsConcat | Source/cmFLTKWrapUICommand.cxx:113 | Implementation records of two consecutive batches are the two batches' records concatenated. |
| FltkWrapUiProofs.ContributionConcat | Source/cmFLTKWrapUICommand.cxx:114-117 | What two consecutive batches append to a list is what each appends, in order. |
| FltkWrapUiProofs.ContributionOther | Source/cmFLTKWrapUICommand.cxx:114-117 | A list that is neither the header nor the implementation list receives nothing. |
| FltkWrapUiProofs.ContributionSplit | Source/cmFLTKWrapUICommand.cxx:114-117 | With distinct header and implementation lists, the header list receives exactly the header records and the implementation list exactly the implementation records, in file order. |
| FltkWrapUiProofs.WrappedFrame | Source/cmFLTKWrapUICommand.cxx:80-90 | Which files get wrapped depends only on the contents and presence of the scan lists named. |
| FltkWrapUiProofs.WrappedPrefix | Source/cmFLTKWrapUICommand.cxx:83-88 | Wrapping stops at the first unknown scan list: the files wrapped are those of the scan lists before it. |
| FltkWrapUiProofs.WrapFilesKeepsOthers | Source/cmFLTKWrapUICommand.cxx:89-117 | Wrapping one scan list leaves every scan list unchanged, contents and presence. This relies on the header and implementation lists not being scan lists. |
| FltkWrapUiProofs.ScanListsOrigs | Source/cmFLTKWrapUICommand.cxx:80-107 | The outer loop extends the original-path sequence by exactly the original paths of the wrapped files. |
| FltkWrapUiProofs.ScanListsHeaders | Source/cmFLTKWrapUICommand.cxx:80-112 | The outer loop extends the header-record sequence by exactly the header records of the wrapped files. |
| FltkWrapUiProofs.ScanListsSources | Source/cmFLTKWrapUICommand.cxx:80-113 | The outer loop extends the implementation-record sequence by exactly the implementation records of the wrapped files. |
| FltkWrapUiProofs.ScanListsList | Source/cmFLTKWrapUICommand.cxx:80-117 | The outer loop leaves every list as its old contents followed by what the wrapped files contribute to it. |
| FltkWrapUiProofs.ScanListsKeys | Source/cmFLTKWrapUICommand.cxx:80-117 | After the outer loop, a list exists exactly when it existed before, or is the header or implementation list and some file was wrapped. |
| FltkWrapUiProofs.InitialPassStatus | Source/cmFLTKWrapUICommand.cxx:80-122 | Once both gates pass, the status is Ok exactly when all scan lists are known, and BadSourceList otherwise. |
| FltkWrapUiProofs.InitialPassRecords | Source/cmFLTKWrapUICommand.cxx:72-113 | Once both gates pass, the three names are taken from the arguments, even when the scan stops early. Each member sequence grows by exactly one entry per non-excluded file of the scan lists before the first unknown one, in scan-list then file order. |
| FltkWrapUiProofs.InitialPassLists | Source/cmFLTKWrapUICommand.cxx:80-117 | Once both gates pass, every list ends as its old contents followed by its contribution from the wrapped files. A list exists afterwards exactly when it existed before or received something. |
| FltkWrapUiProofs.InitialPassAppends | Source/cmFLTKWrapUICommand.cxx:89-117 | With distinct header and implementation lists, the header list grows by exactly one header record per wrapped file and the implementation list by exactly one implementation record per wrapped file, in order, so each count grows by the number of wrapped files. No other list changes. |
| FltkWrapUiProofs.InitialPassFailureKeepsPrefix | Source/cmFLTKWrapUICommand.cxx:80-88 | An unknown scan list fails the pass but keeps everything the scan lists before it appended. The state equals that of a successful pass over just those lists, so failure is not atomic. |
| FltkWrapUiProofs.InitialPassTwice | Source/cmFLTKWrapUICommand.cxx:89-117 | A second InitialPass with the same arguments reports the same status and appends the same header records again, to the list and to the member sequence. The wrap-exclude flag is the only guard. |
| FltkWrapUiProofs.InitialPassKeepsWellFormed | Source/cmFLTKWrapUICommand.cxx:98-113 | InitialPass, successful or not, keeps the three member sequences in lock-step. Every entry stays well formed: header and implementation records share the name and output directory, with extensions h and cxx. The header depends on the original path; the implementation depends on the header's full path and then the original path. |
| FltkWrapUiProofs.RuleMatchesRecords | Source/cmFLTKWrapUICommand.cxx:104-111 | For a well-formed entry, its rule's `-h` argument is the header record's full path and its `-o` argument and output are the implementation record's full path. The fluid input is the original path both records depend on. |
| FltkWrapUiProofs.HeaderPathsIndex | Source/cmFLTKWrapUICommand.cxx:149-152 | The j-th accumulated header path is entry j's header path. |
| FltkWrapUiProofs.RulesIndex | Source/cmFLTKWrapUICommand.cxx:145-172 | The k-th declared rule is entry k's rule, however many entries follow. |
| FltkWrapUiProofs.RuleDepends | Source/cmFLTKWrapUICommand.cxx:131-135 | Rule k depends on the fluid executable and the header paths of entries 0 to k, in order, so it has k+2 dependencies. It extends rule k-1's list by exactly the k-th header path. |
| FltkWrapUiProofs.GeneratedSuffixGrows | Source/cmFLTKWrapUICommand.cxx:145-159 | The text the first j entries append to ui_list is a prefix of the text the first k entries append, for j <= k. Once at least one entry exists, the text starts with the separating space. |
| FltkWrapUiProofs.FinalStateCommands | Source/cmFLTKWrapUICommand.cxx:137-176 | Exactly one rule per entry follows the earlier rules, and the rule at offset k is entry k's rule. GENERATED_FLTK_FILES is always written. With no entries it keeps its prior value, or becomes empty. |
| FltkWrapUiProofs.PublishedAccumulates | Source/cmFLTKWrapUICommand.cxx:137-143 | After any number of FinalPasses, GENERATED_FLTK_FILES holds its earlier value followed by each invocation's generated paths, in invocation order. It is defined after at least one pass. |
| FltkWrapUiProofs.FinalStateSingleEntry | Source/cmFLTKWrapUICommand.cxx:145-176 | For one entry, FinalPass adds exactly one rule: `-h hres -o cxxres ui`, depending on the fluid executable and hres, producing cxxres for the library. It appends a space, hres, a space and cxxres to the published list. |
| FltkWrapUiProofs.ScenarioInitialPass | Source/cmFLTKWrapUICommand.cxx:89-117 | One scan list holds a wrapped file and an excluded file. InitialPass succeeds and records one header and one implementation record for the wrapped file only. The header list becomes that header, the implementation list becomes that implementation, and the scan list is unchanged. |
| FltkWrapUiProofs.ScenarioOneWrappedOneExcluded | Source/cmFLTKWrapUICommand.cxx:45-178 | Same scenario through both passes. There is exactly one fluid rule, and GENERATED_FLTK_FILES is `" " + <out>/a.h + " " + <out>/a.cxx`. |

## Left out

- The internals of `cmMakefile` (`GetDefinition`, `GetSources`,
  `AddSource`, `AddCustomCommand`, `AddDefinition`) are not part of this
  model. They are operations on the `Makefile` record with the assumed
  behaviour stated above.
- The internals of `cmSourceFile` (`SetName`, `GetFullPath`,
  `GetSourceName`) are not part of this model. A record carries its name,
  directory, extension, wrap-exclude flag and depends. `SetName`'s
  header-only flag (always false here) and path resolution are dropped.
- `cmSystemTools::IsOff` is not part of this model. It is the function
  parameter `isOff`, which carries no assumptions.
- FltkWrapUi.InitialPass: once the argument count and the switch gates have
  passed, requires that neither the header list nor the implementation list
  is among the scan lists. The C++ misbehaves only when such a list is
  scanned while it still holds a file whose wrap-exclude flag is clear: it
  then appends to the vector it is iterating, which invalidates the
  iterator and has no defined behaviour to model. The requires also
  excludes inputs the C++ handles well: a header or implementation list
  that is scanned while empty or holding only excluded files, and one that
  is named only after an unknown scan list, where line 87 fails first.
  Failing gates need no such condition.
- FltkWrapUi.FinalPass: requires the three member sequences to have equal
  length. InitialPass keeps them so (`InitialPassKeepsWellFormed`). The
  source instead indexes all three by the header count without a check.
- FltkWrapUi.FinalPass: `lastHeadersClass` is a C++ `int` taken from a
  `size_t`. The model uses the unbounded count, since more than 2^31
  wrapped files is out of reach.
- Expansion of `${FLTK_FLUID_EXE}` and running `fluid` happen at build time.
  The rule carries the literal placeholder.
- The text of the `SetError` messages is reduced to the `ErrorKind` of a
  failed `Step`.
- Several CMake invocations are not modelled: `FinalStates` chains
  FinalPasses only. The model does not say how InitialPass and FinalPass
  calls of different commands interleave.
