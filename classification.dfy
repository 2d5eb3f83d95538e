/** How the traversal of `run` sorts each archive entry (lines 120 and 168). */
module Classification {
  import opened Base
  import opened JavaPaths

  datatype Kind =
    | Convert       // an `.sdlxliff` document directly inside the target-language folder
    | Passthrough   // a source-language entry or a project file: copied unchanged
    | Dropped       // anything else: not written to the output archive

  const XLIFF_SUFFIX: string := ".sdlxliff"
  const PROJECT_SUFFIX: string := ".sdlproj"

  /** The class of an entry, given the resolved target and source codes. `None` is the
      `NullPointerException` of `targetLanguage.equals(...)` or `sourceLanguage.equals(...)`
      on a `null` code; the source test is reached only when the target test fails. */
  function Classify(entryName: string, target: JString, source: JString): Option<Kind>
  {
    var parent := ParentOf(entryName);
    var name := NameOf(entryName);
    if target.None? then None
    else if target == parent && EndsWith(name, XLIFF_SUFFIX) then Some(Convert)
    else if source.None? then None
    else if source == parent || EndsWith(name, PROJECT_SUFFIX) then Some(Passthrough)
    else Some(Dropped)
  }

  /** A converted entry sits in the target folder and has the document suffix, a project file
      is never dropped, and only a `null` code crashes the tests. */
  lemma ClassifyOutcomes(entryName: string, target: JString, source: JString)
    ensures var r := Classify(entryName, target, source);
      && (r == Some(Convert) ==>
            target.Some? && ParentOf(entryName) == target && EndsWith(NameOf(entryName), XLIFF_SUFFIX))
      && (r == Some(Dropped) ==> !EndsWith(NameOf(entryName), PROJECT_SUFFIX))
      && (r.None? ==> target.None? || source.None?)
  {
  }

  /** With both codes non-null every entry gets exactly one class, and the three are told
      apart by the tests of lines 120 and 168. */
  lemma ClassifyCases(entryName: string, target: string, source: string)
    ensures var k := Classify(entryName, Some(target), Some(source));
      var parent := ParentOf(entryName);
      var name := NameOf(entryName);
      && k.Some?
      && (k == Some(Convert) <==> parent == Some(target) && EndsWith(name, XLIFF_SUFFIX))
      && (k == Some(Passthrough) <==>
            !(parent == Some(target) && EndsWith(name, XLIFF_SUFFIX)) &&
            (parent == Some(source) || EndsWith(name, PROJECT_SUFFIX)))
      && (k == Some(Dropped) <==>
            !(parent == Some(target) && EndsWith(name, XLIFF_SUFFIX)) &&
            parent != Some(source) && !EndsWith(name, PROJECT_SUFFIX))
  {
  }

  /** A document directly inside the target folder is converted; with the same folder name
      as the source language it is still converted, since the target test comes first. */
  lemma TargetFolderDocumentConverts(folder: string, file: string, source: JString)
    requires Component(folder) && Component(file) && EndsWith(file, XLIFF_SUFFIX)
    ensures Classify(folder + "/" + file, Some(folder), source) == Some(Convert)
  {
    TopLevelEntry(folder, file);
  }

  /** Anything directly inside the source folder is copied through, unless it is also a
      target-folder document. */
  lemma SourceFolderEntryPasses(folder: string, file: string, target: string)
    requires Component(folder) && Component(file)
    requires !(folder == target && EndsWith(file, XLIFF_SUFFIX))
    ensures Classify(folder + "/" + file, Some(target), Some(folder)) == Some(Passthrough)
  {
    TopLevelEntry(folder, file);
  }

  /** A document two folders down is never converted and never taken as a source-folder entry,
      whatever the (separator-free) language codes: only a project file there survives. */
  lemma NestedEntryNeverMatchesFolder(dir: string, sub: string, file: string, target: string, source: string)
    requires Component(dir) && Component(sub) && Component(file)
    requires Component(target) && Component(source)
    ensures Classify(dir + "/" + sub + "/" + file, Some(target), Some(source)) ==
            (if EndsWith(file, PROJECT_SUFFIX) then Some(Passthrough) else Some(Dropped))
  {
    NestedEntry(dir, sub, file);
  }

  /** An entry at the archive root has no parent, so it is dropped unless it is a project file. */
  lemma RootEntryKeptOnlyIfProject(file: string, target: string, source: string)
    requires Component(file)
    ensures Classify(file, Some(target), Some(source)) ==
            (if EndsWith(file, PROJECT_SUFFIX) then Some(Passthrough) else Some(Dropped))
  {
    RootEntry(file);
  }

  /** The directory entry of a language folder is itself dropped. */
  lemma FolderEntryDropped(folder: string, target: string, source: string)
    requires Component(folder)
    requires !EndsWith(folder, PROJECT_SUFFIX)
    ensures Classify(folder + "/", Some(target), Some(source)) == Some(Dropped)
  {
    DirectoryEntry(folder);
  }

  /** A project file is copied through wherever it sits: its name cannot also end in the
      document suffix. */
  lemma ProjectFileAlwaysPasses(entryName: string, target: string, source: string)
    requires EndsWith(NameOf(entryName), PROJECT_SUFFIX)
    ensures Classify(entryName, Some(target), Some(source)) == Some(Passthrough)
  {
  }
}
