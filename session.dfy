/** `Sdlppx2Xliff` itself (Sdlppx2Xliff.java lines 46-297): the converter from an SDL Trados
    package to XLIFF, whose static fields become the state of one `Session`. */
module Sdlppx {
  import opened Base
  import opened JavaPaths
  import opened Xml
  import opened Oracles
  import opened Languages
  import opened Classification
  import opened Xliff
  import opened PackageLanguages
  import opened Traversal

  /** How `run` ends: with its result list, or with an unchecked exception escaping it. */
  datatype RunOutcome = Returned(result: seq<string>) | Aborted

  /** The outcome of `run` and the state it leaves: the two language lists, the entries of
      the skeleton archive, the temporary files of the call, and the joined XLIFF document
      written to the `xliff` path. */
  datatype RunEnd = RunEnd(outcome: RunOutcome, srcLangs: seq<JString>, tgtLangs: seq<JString>,
                           out: seq<Entry>, temps: map<TempPath, Bytes>, composite: Option<Bytes>)

  /** The same, for the part of `run` from the opening of the skeleton archive on. */
  datatype PackageEnd = PackageEnd(outcome: RunOutcome, out: seq<Entry>, temps: map<TempPath, Bytes>, composite: Option<Bytes>)

  // ---------------------------------------------------------------------------
  // Reference definition of `run`
  // ---------------------------------------------------------------------------

  /** `run` on `params`, with the package's zip stream yielding `archive` both times it is
      opened; `out0` and `composite0` are what the skeleton archive and the `xliff` file held
      before. */
  function RunSpec(params: Params, archive: Archive, env: Env, out0: seq<Entry>, composite0: Option<Bytes>): RunEnd
  {
    var read := ReadLanguages(Get(params, "source"), archive, env, map[]);
    match read.status
    case LangsCrashed => Early(Aborted, read, out0, composite0)
    case LangsRaised(m) => Early(Returned([ERROR, m]), read, out0, composite0)
    case _ =>
      ReadLeavesCopiesOnly(Get(params, "source"), archive, env);
      ResolveSpec(params, archive, env, read, out0, composite0)
  }

  /** An end before the skeleton archive is opened (line 112): it keeps what it held. */
  function Early(o: RunOutcome, read: LangRead, out0: seq<Entry>, composite0: Option<Bytes>): RunEnd
  {
    RunEnd(o, read.srcLangs, read.tgtLangs, out0, read.temps, composite0)
  }

  /** The loop's context once both codes are resolved. */
  function LoopCtx(params: Params, env: Env, tgt: JString, src: JString): Ctx
    requires "source" in params && "skeleton" in params
  {
    Ctx(params, tgt, src, params["source"], params["skeleton"], env)
  }

  /** Lines 72-112: the target code is resolved first, then the source code, then the
      skeleton archive is opened. */
  function ResolveSpec(params: Params, archive: Archive, env: Env, read: LangRead, out0: seq<Entry>, composite0: Option<Bytes>): RunEnd
    requires "source" in params && Clean(read.temps)
  {
    match Select(Get(params, "tgtLang"), read.tgtLangs, TargetRole)
    case Crashed => Early(Aborted, read, out0, composite0)
    case Rejected(m) => Early(Returned([ERROR, m]), read, out0, composite0)
    case Selected(tgt) =>
      match Select(Get(params, "srcLang"), read.srcLangs, SourceRole)
      case Crashed => Early(Aborted, read, out0, composite0)
      case Rejected(m) => Early(Returned([ERROR, m]), read, out0, composite0)
      case Selected(src) =>
        if "skeleton" !in params then Early(Aborted, read, out0, composite0)
        else
          var p := PackageSpec(params, archive, LoopCtx(params, env, tgt, src), read.temps, composite0);
          RunEnd(p.outcome, read.srcLangs, read.tgtLangs, p.out, p.temps, p.composite)
  }

  /** Lines 112-195: a fresh skeleton archive, the entry loop, the end of the stream, the join
      and the deletion of the collected XLIFF files. */
  function PackageSpec(params: Params, archive: Archive, ctx: Ctx, temps0: map<TempPath, Bytes>, composite0: Option<Bytes>): PackageEnd
    requires Clean(temps0)
  {
    var w := Traverse(archive.entries, ctx, Start(temps0));
    match w.stop
    case Crashed => PackageEnd(Aborted, w.out, w.temps, composite0)
    case Raised(m) => PackageEnd(Returned([ERROR, m]), w.out, w.temps, composite0)
    case Running =>
      if archive.failure.Some? then PackageEnd(Returned([ERROR, archive.failure.value]), w.out, w.temps, composite0)
      else
        TraverseKeepsXlfs(archive.entries, ctx, temps0);
        match ctx.env.join(Docs(w.xliffList, w.temps), Get(params, "xliff"))
        case Err(m) => PackageEnd(Returned([ERROR, m]), w.out, w.temps, composite0)
        case Ok(doc) => PackageEnd(Returned([SUCCESS]), w.out, w.temps - Members(w.xliffList), Some(doc))
  }

  /** Reading the languages into an empty temporary directory leaves at most the project copy
      there, and it ends in a `NullPointerException` when there is no package name. */
  lemma ReadLeavesCopiesOnly(packageFile: JString, archive: Archive, env: Env)
    ensures var r := ReadLanguages(packageFile, archive, env, map[]);
      && Clean(r.temps)
      && (forall p :: p in r.temps ==> p.ProjectCopy?)
      && (packageFile.None? ==> r.status == LangsCrashed)
      && (r.status == Listed ==> r.temps == map[])
      && (r.status.ProjectMissing? ==> r.srcLangs == [] && r.tgtLangs == [])
  {
  }

  /** The checks before the languages are resolved, case by case. */
  lemma RunSpecSteps(params: Params, archive: Archive, env: Env, out0: seq<Entry>, composite0: Option<Bytes>)
    ensures var read := ReadLanguages(Get(params, "source"), archive, env, map[]);
      var r := RunSpec(params, archive, env, out0, composite0);
      && (read.status == LangsCrashed ==> r == Early(Aborted, read, out0, composite0))
      && (read.status.LangsRaised? ==> r == Early(Returned([ERROR, read.status.message]), read, out0, composite0))
      && (!read.status.LangsCrashed? && !read.status.LangsRaised? ==>
            "source" in params && Clean(read.temps) &&
            r == ResolveSpec(params, archive, env, read, out0, composite0))
  {
    ReadLeavesCopiesOnly(Get(params, "source"), archive, env);
  }

  /** The resolution of the two codes, case by case. */
  lemma ResolveSteps(params: Params, archive: Archive, env: Env, read: LangRead, out0: seq<Entry>, composite0: Option<Bytes>)
    requires "source" in params && Clean(read.temps)
    ensures var t := Select(Get(params, "tgtLang"), read.tgtLangs, TargetRole);
      var s := Select(Get(params, "srcLang"), read.srcLangs, SourceRole);
      var r := ResolveSpec(params, archive, env, read, out0, composite0);
      && (t.Crashed? ==> r == Early(Aborted, read, out0, composite0))
      && (t.Rejected? ==> r == Early(Returned([ERROR, t.message]), read, out0, composite0))
      && (t.Selected? && s.Crashed? ==> r == Early(Aborted, read, out0, composite0))
      && (t.Selected? && s.Rejected? ==> r == Early(Returned([ERROR, s.message]), read, out0, composite0))
      && (t.Selected? && s.Selected? && "skeleton" !in params ==> r == Early(Aborted, read, out0, composite0))
      && (t.Selected? && s.Selected? && "skeleton" in params ==>
            var p := PackageSpec(params, archive, LoopCtx(params, env, t.code, s.code), read.temps, composite0);
            r == RunEnd(p.outcome, read.srcLangs, read.tgtLangs, p.out, p.temps, p.composite))
  {
  }

  // ---------------------------------------------------------------------------
  // Properties of `run`
  // ---------------------------------------------------------------------------

  /** The result list is the success code alone, or the error code and one message. */
  predicate WellFormedResult(o: RunOutcome)
  {
    o.Returned? ==> o.result == [SUCCESS] || (|o.result| == 2 && o.result[0] == ERROR)
  }

  lemma PackageResult(params: Params, archive: Archive, ctx: Ctx, temps0: map<TempPath, Bytes>, composite0: Option<Bytes>)
    requires Clean(temps0)
    ensures WellFormedResult(PackageSpec(params, archive, ctx, temps0, composite0).outcome)
  {
  }

  /** Every result `run` returns is `["0"]` or `["1", message]`. */
  lemma ResultCodes(params: Params, archive: Archive, env: Env, out0: seq<Entry>, composite0: Option<Bytes>)
    ensures WellFormedResult(RunSpec(params, archive, env, out0, composite0).outcome)
  {
    var read := ReadLanguages(Get(params, "source"), archive, env, map[]);
    RunSpecSteps(params, archive, env, out0, composite0);
    if !read.status.LangsCrashed? && !read.status.LangsRaised? {
      ResolveSteps(params, archive, env, read, out0, composite0);
      var t := Select(Get(params, "tgtLang"), read.tgtLangs, TargetRole);
      var s := Select(Get(params, "srcLang"), read.srcLangs, SourceRole);
      if t.Selected? && s.Selected? && "skeleton" in params {
        PackageResult(params, archive, LoopCtx(params, env, t.code, s.code), read.temps, composite0);
      }
    }
  }

  /** A package without a project file is refused with the target-language message and no
      options, whatever code was asked for, and nothing is written. */
  lemma NoProjectFileRefused(params: Params, archive: Archive, env: Env, out0: seq<Entry>, composite0: Option<Bytes>)
    requires "source" in params
    requires archive.failure.None?
    requires forall j :: 0 <= j < |archive.entries| ==> !EndsWith(archive.entries[j].name, PROJECT_SUFFIX)
    ensures var r := RunSpec(params, archive, env, out0, composite0);
      && r.outcome == Returned([ERROR, "Incorrect target language. Valid options:"])
      && r.out == out0 && r.composite == composite0 && r.temps == map[]
      && r.srcLangs == [] && r.tgtLangs == []
  {
    var read := ReadLanguages(Get(params, "source"), archive, env, map[]);
    NoProjectFile(params["source"], archive, env, map[]);
    assert read == LangRead(ProjectMissing(NOT_FOUND_REASON), [], [], map[]);
    RunSpecSteps(params, archive, env, out0, composite0);
    ResolveSteps(params, archive, env, read, out0, composite0);
    RejectedIffNoMatch(Get(params, "tgtLang"), [], TargetRole);
    assert Select(Get(params, "tgtLang"), [], TargetRole) == Rejected("Incorrect target language. Valid options:");
  }

  /** An unknown target code is reported before the source code is looked at, with the
      package's target codes as the options; the skeleton archive is not touched. */
  lemma TargetCheckedFirst(params: Params, archive: Archive, env: Env, out0: seq<Entry>, composite0: Option<Bytes>)
    requires "source" in params
    requires var read := ReadLanguages(Get(params, "source"), archive, env, map[]);
      read.status == Listed && NoNulls(read.tgtLangs) &&
      forall i :: 0 <= i < |read.tgtLangs| ==> !MatchesAt(Get(params, "tgtLang"), read.tgtLangs, i)
    ensures var read := ReadLanguages(Get(params, "source"), archive, env, map[]);
      var r := RunSpec(params, archive, env, out0, composite0);
      && r.outcome == Returned([ERROR, "Incorrect target language. Valid options:" + Options(read.tgtLangs)])
      && r.out == out0 && r.composite == composite0
  {
    var read := ReadLanguages(Get(params, "source"), archive, env, map[]);
    RunSpecSteps(params, archive, env, out0, composite0);
    ResolveSteps(params, archive, env, read, out0, composite0);
    RejectedIffNoMatch(Get(params, "tgtLang"), read.tgtLangs, TargetRole);
  }

  /** Without a `skeleton` parameter a package whose languages resolve ends in a
      `NullPointerException` before anything is written. */
  lemma MissingSkeletonAborts(params: Params, archive: Archive, env: Env, out0: seq<Entry>, composite0: Option<Bytes>)
    requires "source" in params && "skeleton" !in params
    requires var read := ReadLanguages(Get(params, "source"), archive, env, map[]);
      read.status == Listed &&
      Select(Get(params, "tgtLang"), read.tgtLangs, TargetRole).Selected? &&
      Select(Get(params, "srcLang"), read.srcLangs, SourceRole).Selected?
    ensures var r := RunSpec(params, archive, env, out0, composite0);
      r.outcome == Aborted && r.out == out0 && r.composite == composite0
  {
    var read := ReadLanguages(Get(params, "source"), archive, env, map[]);
    RunSpecSteps(params, archive, env, out0, composite0);
    ResolveSteps(params, archive, env, read, out0, composite0);
  }

  /** Deleting the collected XLIFF files from the directory the loop leaves restores a
      directory that held only project copies. */
  lemma RemainingMinusXlfs(fs: seq<Fate>, temps0: map<TempPath, Bytes>)
    requires forall p :: p in temps0 ==> p.ProjectCopy?
    ensures Remaining(fs, temps0) - Members(Xlfs(fs)) == temps0
  {
    RemainingFiles(fs, temps0);
    XlfsAreTranslated(fs);
  }

  /** A package run that reports success: no entry's fate ended the run, the stream ended
      cleanly, the skeleton archive is exactly the reference archive, the join was given the
      translated documents in entry order, and the directory is as it was before the loop. */
  lemma PackageSuccess(params: Params, archive: Archive, ctx: Ctx, temps0: map<TempPath, Bytes>, composite0: Option<Bytes>)
    requires forall p :: p in temps0 ==> p.ProjectCopy?
    requires PackageSpec(params, archive, ctx, temps0, composite0).outcome == Returned([SUCCESS])
    ensures var fs := Fates(archive.entries, ctx);
      var p := PackageSpec(params, archive, ctx, temps0, composite0);
      && FirstFatal(fs).None? && archive.failure.None?
      && p.out == Written(archive.entries, fs)
      && ctx.env.join(XliffDocs(fs), Get(params, "xliff")).Ok?
      && p.composite == Some(ctx.env.join(XliffDocs(fs), Get(params, "xliff")).value)
      && p.temps == temps0
  {
    var fs := Fates(archive.entries, ctx);
    if FirstFatal(fs).Some? {
      TraverseStopsAtFirstFatal(archive.entries, ctx, temps0);
    }
    TraverseMatchesFates(archive.entries, ctx, temps0);
    DocsAreXliffDocs(fs, temps0);
    RemainingMinusXlfs(fs, temps0);
  }

  /** The converse: when no entry's fate ends the run, the stream ends cleanly and the join
      succeeds, the package run reports success, however many conversions failed. */
  lemma PackageSucceeds(params: Params, archive: Archive, ctx: Ctx, temps0: map<TempPath, Bytes>, composite0: Option<Bytes>)
    requires forall p :: p in temps0 ==> p.ProjectCopy?
    requires FirstFatal(Fates(archive.entries, ctx)).None? && archive.failure.None?
    requires ctx.env.join(XliffDocs(Fates(archive.entries, ctx)), Get(params, "xliff")).Ok?
    ensures PackageSpec(params, archive, ctx, temps0, composite0).outcome == Returned([SUCCESS])
  {
    TraverseMatchesFates(archive.entries, ctx, temps0);
    DocsAreXliffDocs(Fates(archive.entries, ctx), temps0);
  }

  /** Resolution reports success only when both codes resolved and a skeleton path was given. */
  lemma ResolveSuccess(params: Params, archive: Archive, env: Env, read: LangRead, out0: seq<Entry>, composite0: Option<Bytes>)
    requires "source" in params && Clean(read.temps)
    requires ResolveSpec(params, archive, env, read, out0, composite0).outcome == Returned([SUCCESS])
    ensures "skeleton" in params
    ensures Select(Get(params, "tgtLang"), read.tgtLangs, TargetRole).Selected?
    ensures Select(Get(params, "srcLang"), read.srcLangs, SourceRole).Selected?
  {
    ResolveSteps(params, archive, env, read, out0, composite0);
  }

  /** A successful run got past every check: the project was read, both codes resolved and
      both paths were given. */
  lemma SuccessNeedsResolution(params: Params, archive: Archive, env: Env, out0: seq<Entry>, composite0: Option<Bytes>)
    requires RunSpec(params, archive, env, out0, composite0).outcome == Returned([SUCCESS])
    ensures var read := ReadLanguages(Get(params, "source"), archive, env, map[]);
      && "source" in params && "skeleton" in params
      && read.status == Listed
      && Select(Get(params, "tgtLang"), read.tgtLangs, TargetRole).Selected?
      && Select(Get(params, "srcLang"), read.srcLangs, SourceRole).Selected?
  {
    var read := ReadLanguages(Get(params, "source"), archive, env, map[]);
    RunSpecSteps(params, archive, env, out0, composite0);
    ReadLeavesCopiesOnly(Get(params, "source"), archive, env);
    ResolveSuccess(params, archive, env, read, out0, composite0);
    SelectedIsListed(Get(params, "tgtLang"), read.tgtLangs, TargetRole);
  }

  /** A successful run, for the codes the two checks resolved to: the skeleton archive is
      the reference archive, the joined document is the join of the translated documents in
      entry order, and no temporary file of the call is left. */
  lemma SuccessfulRun(params: Params, archive: Archive, env: Env, out0: seq<Entry>, composite0: Option<Bytes>,
                      tgt: JString, src: JString)
    requires "source" in params && "skeleton" in params
    requires var read := ReadLanguages(Get(params, "source"), archive, env, map[]);
      && read.status == Listed
      && Select(Get(params, "tgtLang"), read.tgtLangs, TargetRole) == Selected(tgt)
      && Select(Get(params, "srcLang"), read.srcLangs, SourceRole) == Selected(src)
    requires RunSpec(params, archive, env, out0, composite0).outcome == Returned([SUCCESS])
    ensures var fs := Fates(archive.entries, LoopCtx(params, env, tgt, src));
      var r := RunSpec(params, archive, env, out0, composite0);
      && FirstFatal(fs).None?
      && r.out == Written(archive.entries, fs)
      && env.join(XliffDocs(fs), Get(params, "xliff")).Ok?
      && r.composite == Some(env.join(XliffDocs(fs), Get(params, "xliff")).value)
      && r.temps == map[]
  {
    var read := ReadLanguages(Get(params, "source"), archive, env, map[]);
    RunSpecSteps(params, archive, env, out0, composite0);
    ReadLeavesCopiesOnly(Get(params, "source"), archive, env);
    ResolveSteps(params, archive, env, read, out0, composite0);
    PackageSuccess(params, archive, LoopCtx(params, env, tgt, src), read.temps, composite0);
  }

  /** The converse at the level of `run`: once both codes resolve and both paths are given,
      the run succeeds whenever no entry's fate ends it, the stream ends cleanly and the join
      succeeds. */
  lemma RunSucceeds(params: Params, archive: Archive, env: Env, out0: seq<Entry>, composite0: Option<Bytes>,
                    tgt: JString, src: JString)
    requires "source" in params && "skeleton" in params
    requires var read := ReadLanguages(Get(params, "source"), archive, env, map[]);
      && read.status == Listed
      && Select(Get(params, "tgtLang"), read.tgtLangs, TargetRole) == Selected(tgt)
      && Select(Get(params, "srcLang"), read.srcLangs, SourceRole) == Selected(src)
    requires var fs := Fates(archive.entries, LoopCtx(params, env, tgt, src));
      FirstFatal(fs).None? && archive.failure.None? && env.join(XliffDocs(fs), Get(params, "xliff")).Ok?
    ensures RunSpec(params, archive, env, out0, composite0).outcome == Returned([SUCCESS])
  {
    var read := ReadLanguages(Get(params, "source"), archive, env, map[]);
    RunSpecSteps(params, archive, env, out0, composite0);
    ReadLeavesCopiesOnly(Get(params, "source"), archive, env);
    ResolveSteps(params, archive, env, read, out0, composite0);
    PackageSucceeds(params, archive, LoopCtx(params, env, tgt, src), read.temps, composite0);
  }

  /** What a package run writes to the skeleton archive, however it ends: the reference
      archive of the entries before the first fatal one (all of them if none is). */
  lemma PackageArchive(params: Params, archive: Archive, ctx: Ctx, temps0: map<TempPath, Bytes>, composite0: Option<Bytes>)
    requires Clean(temps0)
    ensures var fs := Fates(archive.entries, ctx);
      var p := PackageSpec(params, archive, ctx, temps0, composite0);
      && (FirstFatal(fs).None? ==> p.out == Written(archive.entries, fs))
      && (FirstFatal(fs).Some? ==> p.out == Written(archive.entries[..FirstFatal(fs).value], fs[..FirstFatal(fs).value]))
  {
    if FirstFatal(Fates(archive.entries, ctx)).Some? {
      TraverseStopsAtFirstFatal(archive.entries, ctx, temps0);
    } else {
      TraverseMatchesFates(archive.entries, ctx, temps0);
    }
  }

  /** Once both codes resolve the skeleton archive starts afresh, and however the run ends
      it holds what the entries before the first fatal one make. */
  lemma ArchiveStartsAfresh(params: Params, archive: Archive, env: Env, out0: seq<Entry>, composite0: Option<Bytes>,
                            tgt: JString, src: JString)
    requires "source" in params && "skeleton" in params
    requires var read := ReadLanguages(Get(params, "source"), archive, env, map[]);
      && read.status == Listed
      && Select(Get(params, "tgtLang"), read.tgtLangs, TargetRole) == Selected(tgt)
      && Select(Get(params, "srcLang"), read.srcLangs, SourceRole) == Selected(src)
    ensures var fs := Fates(archive.entries, LoopCtx(params, env, tgt, src));
      var r := RunSpec(params, archive, env, out0, composite0);
      && (FirstFatal(fs).None? ==> r.out == Written(archive.entries, fs))
      && (FirstFatal(fs).Some? ==> r.out == Written(archive.entries[..FirstFatal(fs).value], fs[..FirstFatal(fs).value]))
  {
    var read := ReadLanguages(Get(params, "source"), archive, env, map[]);
    RunSpecSteps(params, archive, env, out0, composite0);
    ReadLeavesCopiesOnly(Get(params, "source"), archive, env);
    ResolveSteps(params, archive, env, read, out0, composite0);
    PackageArchive(params, archive, LoopCtx(params, env, tgt, src), read.temps, composite0);
  }

  /** Lines 281-292, the loop over the `LanguageDirection` elements: each code is added to
      its list unless the list already holds it. */
  method CollectCodes(directions: seq<Element>, absent: JString) returns (sources: seq<JString>, targets: seq<JString>)
    ensures sources == Dedup(Codes(directions, SOURCE_CODE, absent)) && targets == Dedup(Codes(directions, TARGET_CODE, absent))
  {
    sources, targets := [], [];
    var k := 0;
    while k < |directions|
      invariant 0 <= k <= |directions|
      invariant sources == Dedup(Codes(directions[..k], SOURCE_CODE, absent))
      invariant targets == Dedup(Codes(directions[..k], TARGET_CODE, absent))
    {
      var direction := directions[k];
      var sourceLanguageCode := AttributeValue(direction, SOURCE_CODE, absent);
      if sourceLanguageCode !in sources {
        sources := sources + [sourceLanguageCode];
      }
      var targetLanguageCode := AttributeValue(direction, TARGET_CODE, absent);
      if targetLanguageCode !in targets {
        targets := targets + [targetLanguageCode];
      }
      DedupStep(directions, k, SOURCE_CODE, absent);
      DedupStep(directions, k, TARGET_CODE, absent);
      k := k + 1;
    }
    assert directions[..k] == directions;
  }

  // ---------------------------------------------------------------------------
  // The converter's state and its methods
  // ---------------------------------------------------------------------------

  /** The static fields of `Sdlppx2Xliff`, with the output stream as the entries written to
      it, plus the temporary directory and the file at the `xliff` path. */
  class Session {
    var srcLangs: seq<JString>
    var tgtLangs: seq<JString>
    var inputFile: JString
    var skeleton: JString
    var out: seq<Entry>
    var tempFiles: map<TempPath, Bytes>
    var composite: Option<Bytes>

    constructor()
      ensures srcLangs == [] && tgtLangs == [] && inputFile.None? && skeleton.None?
      ensures out == [] && tempFiles == map[] && composite.None?
    {
      srcLangs, tgtLangs := [], [];
      inputFile, skeleton := None, None;
      out, tempFiles, composite := [], map[], None;
    }

    /** Lines 246-297. */
    method GetPackageLanguages(packageFile: JString, archive: Archive, env: Env) returns (status: LangStatus)
      modifies this
      ensures var r := ReadLanguages(packageFile, archive, env, old(tempFiles));
        status == r.status && srcLangs == r.srcLangs && tgtLangs == r.tgtLangs && tempFiles == r.temps
      ensures inputFile == old(inputFile) && skeleton == old(skeleton) && out == old(out) && composite == old(composite)
    {
      srcLangs := [];
      tgtLangs := [];
      if packageFile.None? {
        return LangsCrashed;
      }
      var entries := archive.entries;
      var i := 0;
      while i < |entries|
        invariant 0 <= i <= |entries|
        invariant forall j :: 0 <= j < i ==> !IsProject(entries, j)
      {
        if EndsWith(entries[i].name, PROJECT_SUFFIX) {
          break;
        }
        i := i + 1;
      }
      if i == |entries| {
        assert FirstProject(entries).None?;
        if archive.failure.Some? {
          return LangsRaised(archive.failure.value);
        }
        return ProjectMissing(NOT_FOUND_REASON);
      }
      FirstProjectAt(entries, i);
      ReadSteps(packageFile, archive, env, old(tempFiles), i);
      var project := ProjectCopy(NameOf(entries[i].name));
      tempFiles := tempFiles[project := entries[i].data];
      var proj := env.parse(tempFiles[project]);
      if proj.Err? {
        return LangsRaised(proj.message);
      }
      var projectRoot := proj.value;
      if ChildIndex(projectRoot, DIRECTIONS).None? {
        return LangsCrashed;
      }
      var directions := ChildrenNamed(Child(projectRoot, DIRECTIONS), DIRECTION);
      var sources, targets := CollectCodes(directions, env.absentAttribute);
      srcLangs, tgtLangs := sources, targets;
      tempFiles := tempFiles - {project};
      status := Listed;
    }

    /** Lines 232-244: the file's bytes become a new entry of the skeleton archive. */
    method SaveEntry(name: string, file: TempPath)
      requires file in tempFiles
      modifies this
      ensures out == old(out) + [Entry(name, old(tempFiles)[file])]
      ensures tempFiles == old(tempFiles) && composite == old(composite)
      ensures srcLangs == old(srcLangs) && tgtLangs == old(tgtLangs) && inputFile == old(inputFile) && skeleton == old(skeleton)
    {
      out := out + [Entry(name, tempFiles[file])];
    }

    /** Lines 205-230: parse the XLIFF file, patch its header step by step and write it back. */
    method UpdateXliff(xliff: TempPath, original: string, env: Env) returns (outcome: PatchOutcome)
      requires xliff in tempFiles && inputFile.Some? && skeleton.Some?
      modifies this
      ensures outcome == Xliff.UpdateXliff(old(tempFiles)[xliff], original, old(inputFile).value, old(skeleton).value, env)
      ensures tempFiles == (if outcome.Patched? then old(tempFiles)[xliff := outcome.xliff] else old(tempFiles))
      ensures out == old(out) && composite == old(composite)
      ensures srcLangs == old(srcLangs) && tgtLangs == old(tgtLangs) && inputFile == old(inputFile) && skeleton == old(skeleton)
    {
      var doc := env.parse(tempFiles[xliff]);
      if doc.Err? {
        return PatchRaised(doc.message);
      }
      var root := doc.value;
      var fi := ChildIndex(root, "file");
      if fi.None? {
        return PatchCrashed;
      }
      var file := Child(root, "file");
      file := SetAttribute(file, "datatype", "x-sdlpackage");
      file := SetAttribute(file, "original", env.clean(inputFile.value));
      var hi := ChildIndex(file, "header");
      if hi.None? {
        return PatchCrashed;
      }
      var header := Child(file, "header");
      header := AddContent(header, ElementNode(DocumentPropGroup(original)));
      var si := ChildIndex(header, "skl");
      if si.None? {
        return PatchCrashed;
      }
      var skl := Child(header, "skl");
      var xi := ChildIndex(skl, "external-file");
      if xi.None? {
        return PatchCrashed;
      }
      var ext := SetAttribute(Child(skl, "external-file"), "href", env.clean(skeleton.value));
      skl := ReplaceChild(skl, xi.value, ext);
      header := ReplaceChild(header, si.value, skl);
      file := ReplaceChild(file, hi.value, header);
      root := ReplaceChild(root, fi.value, file);
      var bytes := env.serialize(root);
      tempFiles := tempFiles[xliff := bytes];
      outcome := Patched(bytes);
    }

    /** Lines 119-180, the body of the entry loop, on entry `k` of the stream. */
    method ProcessEntry(e: Entry, k: nat, ctx: Ctx, xliffList: seq<TempPath>) returns (stop: Stop, xliffList': seq<TempPath>)
      requires inputFile == Some(ctx.inputFile) && skeleton == Some(ctx.skeleton)
      modifies this
      ensures Walk(stop, out, xliffList', tempFiles) == Step(e, k, ctx, Walk(Running, old(out), xliffList, old(tempFiles)))
      ensures srcLangs == old(srcLangs) && tgtLangs == old(tgtLangs) && inputFile == old(inputFile)
      ensures skeleton == old(skeleton) && composite == old(composite)
    {
      stop, xliffList' := Running, xliffList;
      var parent := ParentOf(e.name);
      var name := NameOf(e.name);
      if ctx.target.None? {
        return Stop.Crashed, xliffList;
      }
      if ctx.target == parent && EndsWith(name, XLIFF_SUFFIX) {
        var tmp := Extracted(k);
        tempFiles := tempFiles[tmp := e.data];
        var res := ctx.env.convert(Request(k, ctx.params), tempFiles[tmp]);
        if res.Converted? {
          tempFiles := tempFiles[XlfOf(k) := res.xliff][SklOf(k) := res.skeleton];
          var patch := UpdateXliff(XlfOf(k), e.name, ctx.env);
          if patch.PatchRaised? {
            return Raised(patch.message), xliffList;
          }
          if patch.PatchCrashed? {
            return Stop.Crashed, xliffList;
          }
          SaveEntry(e.name + ".skl", SklOf(k));
          tempFiles := tempFiles - {SklOf(k)};
          xliffList' := xliffList + [XlfOf(k)];
        } else {
          SaveEntry(e.name, tmp);
        }
        tempFiles := tempFiles - {tmp};
      } else if ctx.source.None? {
        return Stop.Crashed, xliffList;
      } else if ctx.source == parent || EndsWith(name, PROJECT_SUFFIX) {
        var tmp := Extracted(k);
        tempFiles := tempFiles[tmp := e.data];
        SaveEntry(e.name, tmp);
        tempFiles := tempFiles - {tmp};
      }
    }

    /** Lines 190-193: each collected XLIFF file is deleted. */
    method DeleteFiles(files: seq<TempPath>)
      modifies this
      ensures tempFiles == old(tempFiles) - Members(files)
      ensures out == old(out) && composite == old(composite)
      ensures srcLangs == old(srcLangs) && tgtLangs == old(tgtLangs) && inputFile == old(inputFile) && skeleton == old(skeleton)
    {
      var j := 0;
      while j < |files|
        invariant 0 <= j <= |files|
        invariant tempFiles == old(tempFiles) - Members(files[..j])
        invariant out == old(out) && composite == old(composite)
        invariant srcLangs == old(srcLangs) && tgtLangs == old(tgtLangs)
        invariant inputFile == old(inputFile) && skeleton == old(skeleton)
      {
        MembersExtend(files, j);
        tempFiles := tempFiles - {files[j]};
        j := j + 1;
      }
      assert files[..j] == files;
    }

    /** Lines 112-181: open a fresh skeleton archive and run the entry loop, which stops at
        the first exception. */
    method ProcessEntries(entries: seq<Entry>, ctx: Ctx) returns (stop: Stop, xliffList: seq<TempPath>)
      requires inputFile == Some(ctx.inputFile) && skeleton == Some(ctx.skeleton)
      modifies this
      ensures Walk(stop, out, xliffList, tempFiles) == Traverse(entries, ctx, Start(old(tempFiles)))
      ensures srcLangs == old(srcLangs) && tgtLangs == old(tgtLangs) && inputFile == old(inputFile)
      ensures skeleton == old(skeleton) && composite == old(composite)
    {
      out := [];
      stop, xliffList := Running, [];
      var i := 0;
      while i < |entries|
        invariant 0 <= i <= |entries|
        invariant stop == Running
        invariant Traverse(entries[..i], ctx, Start(old(tempFiles))) == Walk(Running, out, xliffList, tempFiles)
        invariant srcLangs == old(srcLangs) && tgtLangs == old(tgtLangs) && composite == old(composite)
        invariant inputFile == old(inputFile) && skeleton == old(skeleton)
      {
        stop, xliffList := ProcessEntry(entries[i], i, ctx, xliffList);
        TraverseExtend(entries, i, ctx, Start(old(tempFiles)));
        if !stop.Running? {
          StoppedStaysStopped(entries, i + 1, ctx, Start(old(tempFiles)));
          return;
        }
        i := i + 1;
      }
      assert entries[..i] == entries;
    }

    /** Lines 112-195: the entry loop, the end of the stream, the join of the collected XLIFF
        files and their deletion. */
    method ConvertPackage(params: Params, archive: Archive, ctx: Ctx) returns (outcome: RunOutcome)
      requires Clean(tempFiles) && inputFile == Some(ctx.inputFile) && skeleton == Some(ctx.skeleton)
      modifies this
      ensures var p := PackageSpec(params, archive, ctx, old(tempFiles), old(composite));
        outcome == p.outcome && out == p.out && tempFiles == p.temps && composite == p.composite
      ensures srcLangs == old(srcLangs) && tgtLangs == old(tgtLangs) && inputFile == old(inputFile) && skeleton == old(skeleton)
    {
      TraverseKeepsXlfs(archive.entries, ctx, tempFiles);
      var stop, xliffList := ProcessEntries(archive.entries, ctx);
      if stop.Crashed? {
        return Aborted;
      }
      if stop.Raised? {
        return Returned([ERROR, stop.message]);
      }
      if archive.failure.Some? {
        return Returned([ERROR, archive.failure.value]);
      }
      var joined := ctx.env.join(Docs(xliffList, tempFiles), Get(params, "xliff"));
      if joined.Err? {
        return Returned([ERROR, joined.message]);
      }
      composite := Some(joined.value);
      DeleteFiles(xliffList);
      outcome := Returned([SUCCESS]);
    }

    /** Lines 60-203. The temporary directory is tracked per call: it starts empty. */
    method Run(params: Params, archive: Archive, env: Env) returns (outcome: RunOutcome)
      modifies this
      ensures var r := RunSpec(params, archive, env, old(out), old(composite));
        && outcome == r.outcome && srcLangs == r.srcLangs && tgtLangs == r.tgtLangs
        && out == r.out && tempFiles == r.temps && composite == r.composite
      ensures inputFile == Get(params, "source") && skeleton == Get(params, "skeleton")
    {
      RunSpecSteps(params, archive, env, out, composite);
      ReadLeavesCopiesOnly(Get(params, "source"), archive, env);
      inputFile := Get(params, "source");
      skeleton := Get(params, "skeleton");
      var sourceLanguage := Get(params, "srcLang");
      var targetLanguage := Get(params, "tgtLang");
      tempFiles := map[];
      var status := GetPackageLanguages(inputFile, archive, env);
      ghost var read := ReadLanguages(inputFile, archive, env, map[]);
      if status.LangsCrashed? {
        return Aborted;
      }
      if status.LangsRaised? {
        return Returned([ERROR, status.message]);
      }
      ResolveSteps(params, archive, env, read, old(out), old(composite));
      var tgt := SelectLanguage(targetLanguage, tgtLangs, TargetRole);
      if tgt.Crashed? {
        return Aborted;
      }
      if tgt.Rejected? {
        return Returned([ERROR, tgt.message]);
      }
      var src := SelectLanguage(sourceLanguage, srcLangs, SourceRole);
      if src.Crashed? {
        return Aborted;
      }
      if src.Rejected? {
        return Returned([ERROR, src.message]);
      }
      if skeleton.None? {
        return Aborted;
      }
      var ctx := Ctx(params, tgt.code, src.code, inputFile.value, skeleton.value, env);
      assert ctx == LoopCtx(params, env, tgt.code, src.code);
      outcome := ConvertPackage(params, archive, ctx);
    }
  }
}
