# Sdlppx2Xliff, modelled in Dafny

OpenXLIFF's `Sdlppx2Xliff` converts an SDL Trados Studio package (`.sdlppx`, a zip archive)
into one XLIFF 1.2 document plus a skeleton archive used later to rebuild the package.
`run(params)` does the following:

- It reads the language directions of the package's first `.sdlproj` project file.
- It resolves the requested target code, then the source code, against those directions.
  An exact match is kept. Otherwise the first case-insensitive match is taken. Otherwise it
  returns an error that lists every option.
- It walks the archive:
  - an `.sdlxliff` document directly inside the target-language folder goes to the SDLXLIFF
    converter;
  - the converted XLIFF has its header patched, and its skeleton is written to the skeleton
    archive;
  - a document the converter rejects is copied unchanged;
  - source-folder entries and project files are copied unchanged;
  - everything else is dropped.
- Finally it joins the patched XLIFF files into the requested `xliff` file and returns `["0"]`.
  A checked exception gives `["1", message]`.

The model has these parts:

| file | module | what it holds |
|---|---|---|
| `base.dfy` | `Base` | Java `null` as `Option`, archive entries, the parameter map, temporary-file names, the result codes |
| `paths.dfy` | `JavaPaths` | `java.io.File.getParent` / `getName` on Unix paths |
| `languages.dfy` | `Languages` | the duplicate-free language lists; resolution of a requested code as a reference function `Select` and as the imperative `SelectLanguage` |
| `classification.dfy` | `Classification` | which branch of the entry loop an entry takes |
| `xml.dfy` | `Xml` | an XML tree as a value, with `getChild` / `getChildren` |
| `xliff.dfy` | `Xliff` | the header patch of `updateXliff` |
| `oracles.dfy` | `Oracles` | the foreign code the converter calls, as function parameters |
| `project.dfy` | `PackageLanguages` | the reference definition of `getPackageLanguages` |
| `traversal.dfy` | `Traversal` | the entry loop, file by file, and a per-entry reference definition ("fates") |
| `session.dfy` | `Sdlppx` | the reference definition of `run`, its properties, and class `Session` |

In `session.dfy`, class `Session` holds the converter's static fields; its methods are proved
against the reference definitions.

Foreign code is passed in as an `Env` value of functions:

- `Sdl2Xliff.run` is `convert`, which either succeeds with XLIFF and skeleton bytes or fails;
- `SAXBuilder.build` is `parse`;
- the indenter plus `XMLOutputter` is `serialize`;
- `Utils.cleanString` is `clean`;
- `Join.join` is `join`.
- what `Element.getAttributeValue` gives for a missing attribute is `absentAttribute`.

The package's zip stream is an `Archive`: the entries it yields (name and bytes) plus an
optional I/O error raised after the last of them. The temporary directory is a map from
`TempPath` to bytes. A `TempPath` is one of:

- the project copy;
- the extracted entry `k`;
- its `.xlf` file;
- its `.skl` file.

The output zip stream is the list of entries written to it, and the joined document is an
`Option<Bytes>`. Outcomes are kept apart:

- an unchecked exception escaping `run` (a `NullPointerException`, an
  `IllegalArgumentException`) is `Aborted`;
- a checked exception is `Returned(["1", message])`.

`getPackageLanguages` deletes the copy of the project file only after every language
direction has been read (line 293). A project that does not parse, or that has no
`LanguageDirections`, leaves its copy in the temporary directory; see
`PackageLanguages.ProjectCopyLeftOnFailure`.

The loop and `run` are modelled with line 123 corrected. As written, the temporary file for a
target-folder document is named after the document without `.sdlxliff`, and
`File.createTempFile` throws an `IllegalArgumentException` when that prefix is shorter than
three characters; the exception is unchecked and escapes `run`. `Traversal.StepAsWritten` is
the loop body as written and `Traversal.Step` the corrected one, which offers every such
document to the converter. `Traversal.Traverse`, `Traversal.FateOf`, the reference definitions
`RunSpec`, `ResolveSpec` and `PackageSpec`, and the methods of `Session` all build on `Step`;
the Findings table gives an input on which the two differ.

## Model

| member | source | states |
|---|---|---|
| Languages.Select | src/com/maxprograms/converters/sdlppx/Sdlppx2Xliff.java:72-110 | the resolution of a requested code: kept when listed, else the first option equal to it ignoring case, else the rejection message listing every option; a `null` option reached by the search is a `NullPointerException` |
| Languages.SearchFinds | src/com/maxprograms/converters/sdlppx/Sdlppx2Xliff.java:72-98 | what the case-insensitive search finds is an option equal to the request ignoring case, and it crashes only on a `null` option |
| Languages.SelectOutcomes | src/com/maxprograms/converters/sdlppx/Sdlppx2Xliff.java:72-110 | a listed code is kept unchanged, any other selected code is an option, and a rejection or crash happens only for an unlisted code, a crash only with a `null` option |
| Languages.Dedup | src/com/maxprograms/converters/sdlppx/Sdlppx2Xliff.java:282-291 | the list built by appending each value that is not in it yet |
| Languages.SelectLanguage | src/com/maxprograms/converters/sdlppx/Sdlppx2Xliff.java:72-110 | the two resolution loops of `run` compute exactly `Select`: exact member, else first case-insensitive match, else the error listing every option, and a `NullPointerException` on a `null` option met before any match |
| Languages.SearchFindsFirstMatch | src/com/maxprograms/converters/sdlppx/Sdlppx2Xliff.java:73-79 | the case-insensitive search returns the first option that matches, in list order |
| Languages.SearchMissesAll | src/com/maxprograms/converters/sdlppx/Sdlppx2Xliff.java:73-79 | with no `null` option the search finds nothing exactly when no option matches, and never crashes |
| Languages.SearchResultListed | src/com/maxprograms/converters/sdlppx/Sdlppx2Xliff.java:73-79 | what the search finds is an option that matches the requested code |
| Languages.RejectionMessage | src/com/maxprograms/converters/sdlppx/Sdlppx2Xliff.java:83-88 | the message loop builds the fixed prefix followed by one space and the text of each option, in list order |
| Languages.IgnoreCaseFallback | src/com/maxprograms/converters/sdlppx/Sdlppx2Xliff.java:72-80 | a code that is not in the list resolves to the first option that equals it ignoring case, and to that option's spelling |
| Languages.RejectedIffNoMatch | src/com/maxprograms/converters/sdlppx/Sdlppx2Xliff.java:81-90 | with no `null` option, a code is rejected exactly when no option matches it ignoring case; the message is the role's prefix plus every option, and resolution then never crashes |
| Languages.SelectedIsListed | src/com/maxprograms/converters/sdlppx/Sdlppx2Xliff.java:72-81 | whatever is selected is one of the options: the requested code itself, or an option matching it ignoring case |
| Languages.MessageListsOptions | src/com/maxprograms/converters/sdlppx/Sdlppx2Xliff.java:83-88 | when no option contains a space, splitting the message tail on spaces gives back every option, in order |
| Languages.WordsStep | src/com/maxprograms/converters/sdlppx/Sdlppx2Xliff.java:84-86 | appending a space and one space-free option to the message adds exactly that option to its words |
| Languages.DedupIsFirstSeen | src/com/maxprograms/converters/sdlppx/Sdlppx2Xliff.java:282-291 | the append-if-absent list holds exactly the values seen, each once, ordered by first occurrence |
| Languages.DedupSameElements | src/com/maxprograms/converters/sdlppx/Sdlppx2Xliff.java:282-291 | the append-if-absent list and its input hold the same values |
| Languages.FirstIndex | src/com/maxprograms/converters/sdlppx/Sdlppx2Xliff.java:282-291 | the first position of a value in a list: it holds the value and no earlier position does |
| Languages.TargetExampleResolves | src/com/maxprograms/converters/sdlppx/Sdlppx2Xliff.java:72-80 | `DE-de` against `de-DE fr-FR` resolves to `de-DE` |
| Languages.TargetExampleRejected | src/com/maxprograms/converters/sdlppx/Sdlppx2Xliff.java:81-89 | `xx-XX` against `de-DE fr-FR` is refused with "Incorrect target language. Valid options: de-DE fr-FR" |
| Languages.ExampleOptions | src/com/maxprograms/converters/sdlppx/Sdlppx2Xliff.java:83-88 | the options of `de-DE fr-FR` are written as " de-DE fr-FR" |
| Languages.ExampleNoMatch | src/com/maxprograms/converters/sdlppx/Sdlppx2Xliff.java:72-80 | `xx-XX` is neither in `de-DE fr-FR` nor equal to either ignoring case |
| JavaPaths.ParentOf | src/com/maxprograms/converters/sdlppx/Sdlppx2Xliff.java:119-120 | `File.getParent` of the normalised path: everything before the last separator, or `null` when there is none |
| JavaPaths.NameOf | src/com/maxprograms/converters/sdlppx/Sdlppx2Xliff.java:119-120 | `File.getName` of the normalised path: what follows the last separator |
| JavaPaths.ParentOfShape | src/com/maxprograms/converters/sdlppx/Sdlppx2Xliff.java:119-120 | the parent is a proper prefix of the normalised path, and `null` exactly when that path has no separator or is the root |
| JavaPaths.NameOfShape | src/com/maxprograms/converters/sdlppx/Sdlppx2Xliff.java:119-120 | the name is a suffix of the normalised path and holds no separator |
| JavaPaths.TopLevelEntry | src/com/maxprograms/converters/sdlppx/Sdlppx2Xliff.java:119-120 | for `dir/file`, `getParent` is `dir` and `getName` is `file` |
| JavaPaths.NestedEntry | src/com/maxprograms/converters/sdlppx/Sdlppx2Xliff.java:119-120 | for `dir/sub/file`, `getParent` is `dir/sub`, which no separator-free language code equals, and `getName` is `file` |
| JavaPaths.RootEntry | src/com/maxprograms/converters/sdlppx/Sdlppx2Xliff.java:119-120 | an entry at the archive root has a `null` parent and is its own name |
| JavaPaths.DirectoryEntry | src/com/maxprograms/converters/sdlppx/Sdlppx2Xliff.java:119-120 | the directory entry `dir/` normalises to `dir`: no parent, named `dir` |
| JavaPaths.LastSlashOfJoined | src/com/maxprograms/converters/sdlppx/Sdlppx2Xliff.java:119-120 | in `dir/name`, with a separator-free name, the last separator is the one just added |
| JavaPaths.NormalizeKeeps | src/com/maxprograms/converters/sdlppx/Sdlppx2Xliff.java:119 | a path with no doubled and no trailing separator is left as it is by `java.io.File` |
| Classification.Classify | src/com/maxprograms/converters/sdlppx/Sdlppx2Xliff.java:120-168 | the branch an entry takes: converted when its parent is the target code and its name ends in `.sdlxliff`, else copied when its parent is the source code or its name ends in `.sdlproj`, else dropped; a `null` code reached by a test is a `NullPointerException` |
| Classification.ClassifyOutcomes | src/com/maxprograms/converters/sdlppx/Sdlppx2Xliff.java:120-168 | a converted entry lies in the target folder and ends in `.sdlxliff`, a `.sdlproj` file is never dropped, and only a `null` code crashes the tests |
| Classification.ClassifyCases | src/com/maxprograms/converters/sdlppx/Sdlppx2Xliff.java:120-180 | with non-null codes every entry takes exactly one branch, and each branch holds exactly when the tests of lines 120 and 168 say so |
| Classification.TargetFolderDocumentConverts | src/com/maxprograms/converters/sdlppx/Sdlppx2Xliff.java:120 | an `.sdlxliff` directly in the target folder is converted, even when the source code names the same folder |
| Classification.SourceFolderEntryPasses | src/com/maxprograms/converters/sdlppx/Sdlppx2Xliff.java:168 | an entry directly in the source folder is copied, unless it is also a target-folder document |
| Classification.NestedEntryNeverMatchesFolder | src/com/maxprograms/converters/sdlppx/Sdlppx2Xliff.java:119-120 | an entry two folders deep matches no separator-free language code: it is copied if it is a project file, else dropped |
| Classification.RootEntryKeptOnlyIfProject | src/com/maxprograms/converters/sdlppx/Sdlppx2Xliff.java:168 | a root entry is copied exactly when it is a project file |
| Classification.FolderEntryDropped | src/com/maxprograms/converters/sdlppx/Sdlppx2Xliff.java:118-180 | the directory entry of a language folder is dropped |
| Classification.ProjectFileAlwaysPasses | src/com/maxprograms/converters/sdlppx/Sdlppx2Xliff.java:168 | a `.sdlproj` entry is copied wherever it sits |
| Xliff.PatchHeader | src/com/maxprograms/converters/sdlppx/Sdlppx2Xliff.java:209-223 | the header edits of `updateXliff` on the parsed tree, or `None` (a `NullPointerException`) when `file`, `header`, `skl` or `external-file` is missing |
| Xliff.UpdateXliff | src/com/maxprograms/converters/sdlppx/Sdlppx2Xliff.java:205-230 | parse the file, patch it with the cleaned package and skeleton paths, serialise it; a parse error and a missing element are told apart |
| Xliff.PatchFailsIffPathMissing | src/com/maxprograms/converters/sdlppx/Sdlppx2Xliff.java:210-222 | the patch fails (`getChild` returns `null`) exactly when one of `file`, `header`, `skl` or `skl/external-file` is missing |
| Xliff.PatchHeaderEdits | src/com/maxprograms/converters/sdlppx/Sdlppx2Xliff.java:209-223 | the patch sets `datatype` and `original` on `file`, appends one document property group to `header`, and sets `href` on `external-file`; every other attribute, child and position is unchanged |
| Xliff.UpdateXliffOutcomes | src/com/maxprograms/converters/sdlppx/Sdlppx2Xliff.java:205-230 | the patch succeeds exactly when the file parses and has the whole header path, and then yields the serialised patched tree; a parse error passes its message on; a missing element is a `NullPointerException` |
| PackageLanguages.ReadLanguages | src/com/maxprograms/converters/sdlppx/Sdlppx2Xliff.java:246-297 | the reference definition of `getPackageLanguages`: no package name is a `NullPointerException`; without a project file the lists stay empty and the result is "Project file not found" or the stream's error; otherwise the first project file is copied and parsed, and its directions give the deduplicated lists |
| PackageLanguages.FirstProject | src/com/maxprograms/converters/sdlppx/Sdlppx2Xliff.java:254-268 | the entry the search stops at is a project file with none before it; `None` means the archive has no project file |
| PackageLanguages.FirstProjectAt | src/com/maxprograms/converters/sdlppx/Sdlppx2Xliff.java:254-268 | a project file with none before it is where the search stops |
| PackageLanguages.ReadSteps | src/com/maxprograms/converters/sdlppx/Sdlppx2Xliff.java:259-296 | once the project is found: a parse error is passed on with the copy left behind; a project without `LanguageDirections` is a `NullPointerException` with the copy left behind; otherwise both lists are read and the copy is deleted |
| PackageLanguages.Codes | src/com/maxprograms/converters/sdlppx/Sdlppx2Xliff.java:281-292 | one code per direction, in document order: its attribute, or the XML library's value for a missing one (`Env.absentAttribute`) |
| PackageLanguages.ListedLanguages | src/com/maxprograms/converters/sdlppx/Sdlppx2Xliff.java:280-292 | after a successful read each list holds every code some direction declares (a missing attribute giving the XML library's value for it), each once, in first-seen order |
| PackageLanguages.DedupOfCodes | src/com/maxprograms/converters/sdlppx/Sdlppx2Xliff.java:281-292 | the deduplicated codes hold each declared code once, nothing undeclared, in first-seen order |
| PackageLanguages.CodesNonNull | src/com/maxprograms/converters/sdlppx/Sdlppx2Xliff.java:281-292 | when the XML library gives a non-null value for a missing attribute, no collected code is `null` |
| PackageLanguages.NonNullDefaultNoNulls | src/com/maxprograms/converters/sdlppx/Sdlppx2Xliff.java:276-292 | with such a library, neither list a successful read returns holds `null`, so the resolution loops of lines 72-110 cannot crash on an option |
| PackageLanguages.OnlyFirstProjectRead | src/com/maxprograms/converters/sdlppx/Sdlppx2Xliff.java:254-268 | entries after the first project file, later project files and stream errors after it change nothing |
| PackageLanguages.ProjectCopyLeftOnFailure | src/com/maxprograms/converters/sdlppx/Sdlppx2Xliff.java:256-293 | the project copy stays in the temporary directory exactly when the read fails after copying it; a full read leaves the directory as it was |
| PackageLanguages.NoProjectFile | src/com/maxprograms/converters/sdlppx/Sdlppx2Xliff.java:271-275 | without a project file both lists stay empty and the result is "Project file not found", unless the stream failed first |
| Traversal.FateOf | src/com/maxprograms/converters/sdlppx/Sdlppx2Xliff.java:119-180 | what becomes of one entry under the corrected loop body, without the temporary files: skipped, copied, kept unchanged after a rejected conversion, translated, failed with a checked exception, or aborted |
| Traversal.Step | src/com/maxprograms/converters/sdlppx/Sdlppx2Xliff.java:119-180 | the corrected loop body, line 123 accepting every document name: the temporary files it creates and deletes, the entries it writes, the XLIFF file it collects, and the exception it raises |
| Traversal.StepAsWritten | src/com/maxprograms/converters/sdlppx/Sdlppx2Xliff.java:119-180 | the loop body as written: like `Step`, but a target-folder document whose name without `.sdlxliff` is shorter than three characters is an `IllegalArgumentException` |
| Traversal.Traverse | src/com/maxprograms/converters/sdlppx/Sdlppx2Xliff.java:115-181 | the entry loop over the corrected body, in stream order, until the first exception |
| Traversal.Request | src/com/maxprograms/converters/sdlppx/Sdlppx2Xliff.java:132-145 | the converter is told the extracted file, its `.xlf` and `.skl` paths, and the caller's own `srcLang` and `tgtLang` |
| Traversal.RequestCarriesRequestedCodes | src/com/maxprograms/converters/sdlppx/Sdlppx2Xliff.java:136-141 | the codes passed on are the requested ones (`DE-de`), not the ones resolution produced |
| Traversal.FirstFatal | src/com/maxprograms/converters/sdlppx/Sdlppx2Xliff.java:118-181 | the first entry whose fate ends the run, with none before it |
| Traversal.StepMatchesFate | src/com/maxprograms/converters/sdlppx/Sdlppx2Xliff.java:119-180 | one pass of the loop body does exactly what the entry's fate says; every temporary file it creates, except the patched XLIFF, is deleted again |
| Traversal.StepCopies | src/com/maxprograms/converters/sdlppx/Sdlppx2Xliff.java:164-180 | an entry that is copied through, or a rejected document, adds itself to the skeleton archive and changes nothing else |
| Traversal.StepTranslates | src/com/maxprograms/converters/sdlppx/Sdlppx2Xliff.java:146-163 | a converted document adds its skeleton entry `name.skl` to the archive and its patched XLIFF file to the list and the directory |
| Traversal.StepStops | src/com/maxprograms/converters/sdlppx/Sdlppx2Xliff.java:146-167 | a fatal entry stops the run with its exception and writes nothing |
| Traversal.Fates | src/com/maxprograms/converters/sdlppx/Sdlppx2Xliff.java:118-181 | one fate per entry |
| Traversal.TraverseMatchesFates | src/com/maxprograms/converters/sdlppx/Sdlppx2Xliff.java:115-181 | when no entry is fatal the loop writes the whole reference archive, collects the translated entries' XLIFF files in entry order, and leaves only those files behind |
| Traversal.TraverseStopsAtFirstFatal | src/com/maxprograms/converters/sdlppx/Sdlppx2Xliff.java:115-181 | the loop stops with the first fatal entry's exception, having written and collected what the entries before it give |
| Traversal.StoppedStaysStopped | src/com/maxprograms/converters/sdlppx/Sdlppx2Xliff.java:118 | once an exception is on its way out, later entries change nothing |
| Traversal.TraverseAppendOnly | src/com/maxprograms/converters/sdlppx/Sdlppx2Xliff.java:149-178 | the skeleton archive and the XLIFF list only grow: what is there after `n` entries is a prefix of the end result |
| Traversal.XlfsAreTranslated | src/com/maxprograms/converters/sdlppx/Sdlppx2Xliff.java:163 | the XLIFF list names distinct files, each belonging to a translated entry |
| Traversal.DocsAreXliffDocs | src/com/maxprograms/converters/sdlppx/Sdlppx2Xliff.java:163-188 | the join reads the translated entries' patched documents, in entry order |
| Traversal.TraverseKeepsXlfs | src/com/maxprograms/converters/sdlppx/Sdlppx2Xliff.java:163-192 | when the loop runs to the end, every collected XLIFF file is still in the directory |
| Traversal.RemainingFiles | src/com/maxprograms/converters/sdlppx/Sdlppx2Xliff.java:160-167 | after the loop the directory holds the files it started with, plus each translated entry's patched XLIFF and nothing else |
| Traversal.RemainingClean | src/com/maxprograms/converters/sdlppx/Sdlppx2Xliff.java:123-167 | the loop leaves no extracted entry and no skeleton file behind |
| Base.LastIndexOf | src/com/maxprograms/converters/sdlppx/Sdlppx2Xliff.java:123 | `String.lastIndexOf`, used by `java.io.File` and by the temporary-file prefix: the last position holding the character, or -1 |
| Traversal.DocumentStem | src/com/maxprograms/converters/sdlppx/Sdlppx2Xliff.java:123 | in a document name the last `.` is the one that starts `.sdlxliff` |
| Traversal.FailedConversionKeepsOriginal | src/com/maxprograms/converters/sdlppx/Sdlppx2Xliff.java:164-167 | a document the converter rejects is written back unchanged, and the loop goes on |
| Traversal.ShortStemAborts | src/com/maxprograms/converters/sdlppx/Sdlppx2Xliff.java:123 | for a target-folder document the converter rejects whose name without `.sdlxliff` is shorter than three characters, the code as written aborts `run`, while the corrected step copies the document unchanged |
| Traversal.ShortDocumentNameAborts | src/com/maxprograms/converters/sdlppx/Sdlppx2Xliff.java:123 | `de-DE/ab.sdlxliff`, rejected by the converter, aborts the code as written; the corrected step goes on with the next entry |
| Traversal.FateIgnoresNameLength | src/com/maxprograms/converters/sdlppx/Sdlppx2Xliff.java:120-167 | in the corrected step any two target-folder documents the converter rejects are both kept unchanged, whatever the lengths of their names |
| Sdlppx.RunSpec | src/com/maxprograms/converters/sdlppx/Sdlppx2Xliff.java:60-203 | the reference definition of `run` (with line 123 corrected): read the languages, resolve the codes, convert the package |
| Sdlppx.ResolveSpec | src/com/maxprograms/converters/sdlppx/Sdlppx2Xliff.java:72-112 | the target code is resolved first, then the source code, then the skeleton archive is opened |
| Sdlppx.PackageSpec | src/com/maxprograms/converters/sdlppx/Sdlppx2Xliff.java:112-195 | a fresh skeleton archive, the entry loop, the end of the stream, the join and the deletion of the collected XLIFF files |
| Sdlppx.ResultCodes | src/com/maxprograms/converters/sdlppx/Sdlppx2Xliff.java:60-203 | every result `run` returns is `["0"]` or `["1", message]` |
| Sdlppx.RunSpecSteps | src/com/maxprograms/converters/sdlppx/Sdlppx2Xliff.java:69-71 | a `null` source path or a project without directions aborts `run`; a read error returns its message; otherwise the codes are resolved |
| Sdlppx.ResolveSteps | src/com/maxprograms/converters/sdlppx/Sdlppx2Xliff.java:72-112 | the target is resolved before the source, each refusal returns its message, a missing skeleton path aborts, and otherwise the package is converted |
| Sdlppx.ReadLeavesCopiesOnly | src/com/maxprograms/converters/sdlppx/Sdlppx2Xliff.java:246-297 | reading the languages leaves at most the project copy behind, none after a full read, and no options when there is no project |
| Sdlppx.NoProjectFileRefused | src/com/maxprograms/converters/sdlppx/Sdlppx2Xliff.java:70-90 | a package without a project file is refused with the target-language message and no options, whatever code was asked for; nothing is written and no temporary file is left |
| Sdlppx.TargetCheckedFirst | src/com/maxprograms/converters/sdlppx/Sdlppx2Xliff.java:72-90 | an unmatched target code is reported, with the package's target codes as options, before the source code is looked at and before the skeleton archive is opened |
| Sdlppx.MissingSkeletonAborts | src/com/maxprograms/converters/sdlppx/Sdlppx2Xliff.java:65-112 | without a `skeleton` parameter, a package whose codes resolve ends in a `NullPointerException` before anything is written |
| Sdlppx.SuccessNeedsResolution | src/com/maxprograms/converters/sdlppx/Sdlppx2Xliff.java:63-195 | a successful run read the project, resolved both codes, and had both paths |
| Sdlppx.ResolveSuccess | src/com/maxprograms/converters/sdlppx/Sdlppx2Xliff.java:72-112 | a successful conversion needs both codes resolved and a skeleton path |
| Sdlppx.RemainingMinusXlfs | src/com/maxprograms/converters/sdlppx/Sdlppx2Xliff.java:190-193 | deleting the collected XLIFF files leaves the directory as it was before the loop |
| Sdlppx.PackageResult | src/com/maxprograms/converters/sdlppx/Sdlppx2Xliff.java:112-201 | from the opening of the skeleton archive on, every result is well formed |
| Sdlppx.PackageSuccess | src/com/maxprograms/converters/sdlppx/Sdlppx2Xliff.java:112-195 | success means no entry was fatal, the stream ended cleanly, the skeleton archive is the reference archive, the join got the translated documents in entry order, and the directory is as before the loop |
| Sdlppx.PackageSucceeds | src/com/maxprograms/converters/sdlppx/Sdlppx2Xliff.java:112-195 | the converse: no fatal entry, a clean end of the stream and a successful join give `["0"]`, however many conversions failed |
| Sdlppx.SuccessfulRun | src/com/maxprograms/converters/sdlppx/Sdlppx2Xliff.java:60-195 | for the resolved codes, a successful `run` writes the reference archive, stores the join of the translated documents, and leaves no temporary file |
| Sdlppx.RunSucceeds | src/com/maxprograms/converters/sdlppx/Sdlppx2Xliff.java:60-195 | the converse for `run`: with both codes resolved and both paths given, no fatal entry, a clean stream and a successful join give `["0"]` |
| Sdlppx.PackageArchive | src/com/maxprograms/converters/sdlppx/Sdlppx2Xliff.java:112-181 | however the loop ends, the skeleton archive holds the reference archive of the entries before the first fatal one |
| Sdlppx.ArchiveStartsAfresh | src/com/maxprograms/converters/sdlppx/Sdlppx2Xliff.java:112-181 | once both codes resolve, the skeleton archive is rewritten from nothing, whatever it held before |
| Sdlppx.CollectCodes | src/com/maxprograms/converters/sdlppx/Sdlppx2Xliff.java:281-292 | the directions loop yields the deduplicated source and target codes, in first-seen order |
| Sdlppx.Session.GetPackageLanguages | src/com/maxprograms/converters/sdlppx/Sdlppx2Xliff.java:246-297 | the method's status, lists and temporary directory are those of the reference read `ReadLanguages` |
| Sdlppx.Session.SaveEntry | src/com/maxprograms/converters/sdlppx/Sdlppx2Xliff.java:232-244 | one entry, holding the file's bytes under the entry's name, is appended to the skeleton archive |
| Sdlppx.Session.UpdateXliff | src/com/maxprograms/converters/sdlppx/Sdlppx2Xliff.java:205-230 | the step-by-step patch computes `Xliff.UpdateXliff`, and the file is rewritten only when the patch succeeds |
| Sdlppx.Session.ProcessEntry | src/com/maxprograms/converters/sdlppx/Sdlppx2Xliff.java:119-180 | one pass of the loop body moves the state exactly as `Traversal.Step`, the body with line 123 corrected, does |
| Sdlppx.Session.ProcessEntries | src/com/maxprograms/converters/sdlppx/Sdlppx2Xliff.java:112-181 | the entry loop starts a fresh skeleton archive and ends in the state `Traversal.Traverse` gives, with line 123 corrected |
| Sdlppx.Session.DeleteFiles | src/com/maxprograms/converters/sdlppx/Sdlppx2Xliff.java:190-193 | exactly the listed files are removed from the directory |
| Sdlppx.Session.ConvertPackage | src/com/maxprograms/converters/sdlppx/Sdlppx2Xliff.java:112-195 | the outcome, archive, directory and joined document are those of `PackageSpec`, with line 123 corrected |
| Sdlppx.Session.Run | src/com/maxprograms/converters/sdlppx/Sdlppx2Xliff.java:60-203 | the outcome and the whole new state are those of the reference definition `RunSpec`, with line 123 corrected |
| Sdlppx.Session.constructor | src/com/maxprograms/converters/sdlppx/Sdlppx2Xliff.java:48-53 | the static fields start empty: no languages, paths, archive entries, files or document |

## Left out

- Foreign code: the SDLXLIFF converter, the XML parser and serialiser, the indenter, `Utils.cleanString` and `Join.join`. These are opaque parameters of `Env`, and nothing is assumed about what they compute.
- PackageLanguages.Codes: the XML library's `Element` is not part of this model. `getAttributeValue` on a missing attribute gives `Env.absentAttribute`, left open (`null`, or the library's default value). `getChild` is taken to give the first child element of that name, or `null`, and `getChildren` the direct child elements of that name in document order.
- Sdlppx.Session.ProcessEntry: runs the loop body with line 123 corrected, so a target-folder document whose name without `.sdlxliff` is shorter than three characters does not raise the `IllegalArgumentException` of the code as written (`Traversal.StepAsWritten`).
- Sdlppx.Session.ProcessEntries: runs `Traversal.Traverse`, the loop over the corrected body, so such a document does not stop the loop.
- Sdlppx.Session.ConvertPackage: follows `PackageSpec`, built on the corrected body; such a package can end in `["0"]` where the code as written aborts.
- Sdlppx.Session.Run: follows `RunSpec`, built on the corrected body; such a package can end in `["0"]` where the code as written aborts.
- Traversal.Step, Traversal.Traverse and Traversal.FateOf: the corrected loop body and what builds on it; `Traversal.StepAsWritten` alone keeps line 123 as written.
- Sdlppx.RunSpec, Sdlppx.ResolveSpec and Sdlppx.PackageSpec: built on the corrected loop body, as above.
- Zip compression, buffer sizes and the copy loops over `read`/`write` buffers: an entry is its whole byte string.
- Logging, and any concurrent use of the static fields.
- I/O failures while writing a temporary file or the output archive, and partial output after an error; the only I/O failure modelled is one raised by the input stream or by the foreign code.
- Traversal.Written: duplicate names in the skeleton archive. `ZipOutputStream.putNextEntry` rejects a second entry of the same name with a `ZipException`, which `run` returns as `["1", message]`. This happens when the package repeats an entry name, or when the source and target codes are the same and the folder holds `x.sdlxliff.skl` beside `x.sdlxliff`. `Written` keeps both entries.
- A read error inside an entry's data (lines 127 and 174) leaves the extracted file behind; in the model the stream's error (`Archive.failure`) can only fall between entries.
- Files the converter leaves behind when it fails; temporary-file naming and uniqueness (`TempPath` makes names distinct by construction).
- Unchecked exceptions raised inside the foreign code. An empty result list from the converter (`res.get(0)`) counts as a failed conversion.
- A checked exception whose `getMessage()` is `null`: a message is always a string here.
- `HashMap`: a `null` value and an absent key are the same in the converter's parameter table.
- The temporary directory is tracked per call and starts empty at `run`; other files there are not modelled.
- The static fields start as `null` in Java; the model's constructor starts them empty, since `run` assigns each of them before reading it.
- Streams left open on an error path, and the closing of the streams.
- `equalsIgnoreCase` folds ASCII letters only; other Unicode case pairs are not modelled.
- `java.io.File` is modelled on Unix (`/`-separated) paths.
- The XML tree is a value: the in-place DOM update of `updateXliff` is modelled as building the patched tree. Attribute order and formatting are not modelled.
- `getPackageLanguages` returns a JSON object; its content is modelled as `LangStatus` and the two lists, not as JSON.
- The constants class and the machine translation service the wider converter package uses are not part of this model.

## Findings

| source | as written | input that shows it | evidently intended | confidence | as-written member | corrected member |
|---|---|---|---|---|---|---|
| src/com/maxprograms/converters/sdlppx/Sdlppx2Xliff.java:123 | the temporary file's prefix is the document name without its suffix, and `File.createTempFile` throws `IllegalArgumentException` for a prefix shorter than three characters, which escapes `run` | a package translated into `de-DE` with a document `de-DE/ab.sdlxliff` | every target-folder document is offered to the converter, whatever the length of its name | not executed | Traversal.StepAsWritten, Traversal.ShortDocumentNameAborts | Traversal.Step, Traversal.FateIgnoresNameLength |
