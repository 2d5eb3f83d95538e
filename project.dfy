/** What `getPackageLanguages` (Sdlppx2Xliff.java lines 246-297) reads from a package: the
    language directions of the first project file in it. */
module PackageLanguages {
  import opened Base
  import opened JavaPaths
  import opened Xml
  import opened Oracles
  import opened Languages
  import Classification

  const DIRECTIONS: string := "LanguageDirections"
  const DIRECTION: string := "LanguageDirection"
  const SOURCE_CODE: string := "SourceLanguageCode"
  const TARGET_CODE: string := "TargetLanguageCode"
  const NOT_FOUND_REASON: string := "Project file not found"

  /** Entry `i` of the archive is a project file. */
  predicate IsProject(entries: seq<Entry>, i: int)
  {
    0 <= i < |entries| && EndsWith(entries[i].name, Classification.PROJECT_SUFFIX)
  }

  /** The entry the search loop stops at. */
  function FirstProject(entries: seq<Entry>): (r: Option<nat>)
    ensures r.Some? ==> IsProject(entries, r.value)
    ensures r.Some? ==> forall j :: 0 <= j < r.value ==> !IsProject(entries, j)
    ensures r.None? ==> forall j :: 0 <= j < |entries| ==> !IsProject(entries, j)
    decreases |entries|
  {
    if entries == [] then None
    else if IsProject(entries, 0) then Some(0)
    else match FirstProject(entries[1..])
      case None =>
        assert forall j :: 1 <= j < |entries| ==> IsProject(entries, j) == IsProject(entries[1..], j - 1);
        None
      case Some(k) =>
        assert forall j :: 1 <= j <= k + 1 ==> IsProject(entries, j) == IsProject(entries[1..], j - 1);
        Some(k + 1)
  }

  /** The search loop's exit condition: entry `i` is a project file and none before it is. */
  lemma FirstProjectAt(entries: seq<Entry>, i: nat)
    requires IsProject(entries, i)
    requires forall j :: 0 <= j < i ==> !IsProject(entries, j)
    ensures FirstProject(entries) == Some(i)
  {
    var r := FirstProject(entries);
    assert r.Some?;
    assert !IsProject(entries, r.value) || r.value >= i;
  }

  /** The value of one attribute on each element, `absent` where it is missing. */
  function Codes(directions: seq<Element>, attribute: string, absent: JString): (r: seq<JString>)
    ensures |r| == |directions|
    ensures forall j :: 0 <= j < |directions| ==> r[j] == AttributeValue(directions[j], attribute, absent)
    decreases |directions|
  {
    if directions == [] then []
    else Codes(directions[..|directions| - 1], attribute, absent) + [AttributeValue(directions[|directions| - 1], attribute, absent)]
  }

  /** One pass of the directions loop: a code not yet listed is appended, a listed one is
      skipped. */
  lemma DedupStep(ds: seq<Element>, k: nat, attribute: string, absent: JString)
    requires k < |ds|
    ensures var d := Dedup(Codes(ds[..k], attribute, absent));
      var c := AttributeValue(ds[k], attribute, absent);
      Dedup(Codes(ds[..k + 1], attribute, absent)) == if c in d then d else d + [c]
  {
    assert ds[..k + 1][..k] == ds[..k];
  }

  /** How a call ends: with the two lists filled in, with the "Project file not found"
      object, with a checked exception carrying that message, or with a
      `NullPointerException`. */
  datatype LangStatus = Listed | ProjectMissing(reason: string) | LangsRaised(message: string) | LangsCrashed

  /** The status, the two lists and the temporary files after the call. */
  datatype LangRead = LangRead(status: LangStatus, srcLangs: seq<JString>, tgtLangs: seq<JString>, temps: map<TempPath, Bytes>)

  /** The `LanguageDirection` children of the project's `LanguageDirections` element. */
  function Directions(root: Element): Option<seq<Element>>
  {
    match ChildIndex(root, DIRECTIONS)
    case None => None
    case Some(_) => Some(ChildrenNamed(Child(root, DIRECTIONS), DIRECTION))
  }

  /** The reference definition of `getPackageLanguages` on the package named `packageFile`,
      whose zip stream yields `archive`, with the temporary directory holding `temps`. Both
      lists are emptied first; only the first project entry is copied (to a file named after
      it) and parsed; the copy is deleted only when the directions were all read. */
  function ReadLanguages(packageFile: JString, archive: Archive, env: Env, temps: map<TempPath, Bytes>): LangRead
  {
    if packageFile.None? then LangRead(LangsCrashed, [], [], temps)
    else match FirstProject(archive.entries)
      case None =>
        var status := if archive.failure.Some? then LangsRaised(archive.failure.value) else ProjectMissing(NOT_FOUND_REASON);
        LangRead(status, [], [], temps)
      case Some(i) =>
        var copy := ProjectCopy(NameOf(archive.entries[i].name));
        var temps' := temps[copy := archive.entries[i].data];
        match env.parse(archive.entries[i].data)
        case Err(m) => LangRead(LangsRaised(m), [], [], temps')
        case Ok(root) =>
          match Directions(root)
          case None => LangRead(LangsCrashed, [], [], temps')
          case Some(ds) =>
            LangRead(Listed, Dedup(Codes(ds, SOURCE_CODE, env.absentAttribute)), Dedup(Codes(ds, TARGET_CODE, env.absentAttribute)), temps' - {copy})
  }

  /** The three ways a read ends once the first project entry `i` is found. */
  lemma ReadSteps(packageFile: JString, archive: Archive, env: Env, temps: map<TempPath, Bytes>, i: nat)
    requires packageFile.Some? && FirstProject(archive.entries) == Some(i)
    ensures var e := archive.entries[i];
      var copy := ProjectCopy(NameOf(e.name));
      var p := env.parse(e.data);
      var r := ReadLanguages(packageFile, archive, env, temps);
      && (p.Err? ==> r == LangRead(LangsRaised(p.message), [], [], temps[copy := e.data]))
      && (p.Ok? && ChildIndex(p.value, DIRECTIONS).None? ==> r == LangRead(LangsCrashed, [], [], temps[copy := e.data]))
      && (p.Ok? && ChildIndex(p.value, DIRECTIONS).Some? ==>
            var ds := ChildrenNamed(Child(p.value, DIRECTIONS), DIRECTION);
            r == LangRead(Listed, Dedup(Codes(ds, SOURCE_CODE, env.absentAttribute)), Dedup(Codes(ds, TARGET_CODE, env.absentAttribute)), temps[copy := e.data] - {copy}))
  {
  }

  /** Some direction of the project carries `code` in `attribute`. */
  predicate Declared(ds: seq<Element>, attribute: string, absent: JString, code: JString)
  {
    exists j :: 0 <= j < |ds| && AttributeValue(ds[j], attribute, absent) == code
  }

  /** Deduplicating one attribute's codes keeps every declared code once, in the order the
      directions first give them. */
  lemma DedupOfCodes(ds: seq<Element>, attribute: string, absent: JString)
    ensures var all := Codes(ds, attribute, absent);
      var d := Dedup(all);
      && NoDuplicates(d)
      && (forall c :: c in d ==> c in all)
      && (forall c :: c in d ==> Declared(ds, attribute, absent, c))
      && (forall c :: Declared(ds, attribute, absent, c) ==> c in d)
      && (forall a, b :: 0 <= a < b < |d| ==> FirstIndex(all, d[a]) < FirstIndex(all, d[b]))
  {
    var all := Codes(ds, attribute, absent);
    DedupIsFirstSeen(all);
    forall c | Declared(ds, attribute, absent, c) ensures c in all {
      var j :| 0 <= j < |ds| && AttributeValue(ds[j], attribute, absent) == c;
      assert all[j] == c;
    }
    forall c | c in all ensures Declared(ds, attribute, absent, c) {
      var j :| 0 <= j < |all| && all[j] == c;
      assert AttributeValue(ds[j], attribute, absent) == c;
    }
  }

  /** After a successful read each list holds every code some direction declares (a missing
      attribute counting as the library's value for it), each once, in the order the directions first give them. */
  lemma ListedLanguages(packageFile: JString, archive: Archive, env: Env, temps: map<TempPath, Bytes>)
    requires ReadLanguages(packageFile, archive, env, temps).status == Listed
    ensures FirstProject(archive.entries).Some?
    ensures var ds := Directions(env.parse(archive.entries[FirstProject(archive.entries).value].data).value).value;
      var r := ReadLanguages(packageFile, archive, env, temps);
      && r.srcLangs == Dedup(Codes(ds, SOURCE_CODE, env.absentAttribute))
      && r.tgtLangs == Dedup(Codes(ds, TARGET_CODE, env.absentAttribute))
      && NoDuplicates(r.srcLangs) && NoDuplicates(r.tgtLangs)
      && (forall c :: c in r.srcLangs ==> Declared(ds, SOURCE_CODE, env.absentAttribute, c))
      && (forall c :: Declared(ds, SOURCE_CODE, env.absentAttribute, c) ==> c in r.srcLangs)
      && (forall c :: c in r.tgtLangs ==> Declared(ds, TARGET_CODE, env.absentAttribute, c))
      && (forall c :: Declared(ds, TARGET_CODE, env.absentAttribute, c) ==> c in r.tgtLangs)
  {
    var i := FirstProject(archive.entries).value;
    var ds := Directions(env.parse(archive.entries[i].data).value).value;
    DedupOfCodes(ds, SOURCE_CODE, env.absentAttribute);
    DedupOfCodes(ds, TARGET_CODE, env.absentAttribute);
  }

  /** With a non-null value for a missing attribute, no deduplicated code is `null`. */
  lemma CodesNonNull(ds: seq<Element>, attribute: string, absent: JString)
    requires absent.Some?
    ensures NoNulls(Dedup(Codes(ds, attribute, absent)))
  {
    var all := Codes(ds, attribute, absent);
    DedupSameElements(all);
    forall i | 0 <= i < |Dedup(all)| ensures Dedup(all)[i].Some? {
      assert Dedup(all)[i] in all;
    }
  }

  /** When the XML library gives a non-null value for a missing attribute, neither list holds
      `null`, so resolving a code against them never ends in a `NullPointerException`. */
  lemma NonNullDefaultNoNulls(packageFile: JString, archive: Archive, env: Env, temps: map<TempPath, Bytes>)
    requires env.absentAttribute.Some?
    requires ReadLanguages(packageFile, archive, env, temps).status == Listed
    ensures NoNulls(ReadLanguages(packageFile, archive, env, temps).srcLangs)
    ensures NoNulls(ReadLanguages(packageFile, archive, env, temps).tgtLangs)
  {
    ListedLanguages(packageFile, archive, env, temps);
    var ds := Directions(env.parse(archive.entries[FirstProject(archive.entries).value].data).value).value;
    CodesNonNull(ds, SOURCE_CODE, env.absentAttribute);
    CodesNonNull(ds, TARGET_CODE, env.absentAttribute);
  }

  /** Keeping the first project entry and everything before it keeps it the first. */
  lemma FirstProjectOfPrefix(entries: seq<Entry>, rest: seq<Entry>)
    requires FirstProject(entries).Some?
    ensures var i := FirstProject(entries).value;
      i < |entries[..i + 1] + rest| && (entries[..i + 1] + rest)[i] == entries[i] &&
      FirstProject(entries[..i + 1] + rest) == Some(i)
  {
    var i := FirstProject(entries).value;
    var es := entries[..i + 1] + rest;
    assert es[i] == entries[i];
    assert IsProject(es, i);
    forall j | 0 <= j < i ensures !IsProject(es, j) {
      assert es[j] == entries[j];
      assert !IsProject(entries, j);
    }
    var r := FirstProject(es);
    assert r.Some? ==> r.value >= i;
  }

  /** Nothing after the first project entry is read: not later project files, not later
      entries, not an I/O error further down the stream. */
  lemma OnlyFirstProjectRead(packageFile: JString, archive: Archive, rest: seq<Entry>, failure: Option<string>,
                              env: Env, temps: map<TempPath, Bytes>)
    requires FirstProject(archive.entries).Some?
    ensures var i := FirstProject(archive.entries).value;
      ReadLanguages(packageFile, Archive(archive.entries[..i + 1] + rest, failure), env, temps) ==
      ReadLanguages(packageFile, archive, env, temps)
  {
    FirstProjectOfPrefix(archive.entries, rest);
    var i := FirstProject(archive.entries).value;
    if packageFile.Some? {
      ReadSteps(packageFile, Archive(archive.entries[..i + 1] + rest, failure), env, temps, i);
      ReadSteps(packageFile, archive, env, temps, i);
    }
  }

  /** The copy of the project file stays in the temporary directory exactly when the project
      was found but could not be parsed or has no `LanguageDirections`; nothing else in the
      directory is touched. */
  lemma ProjectCopyLeftOnFailure(packageFile: JString, archive: Archive, env: Env, temps: map<TempPath, Bytes>)
    requires packageFile.Some? && FirstProject(archive.entries).Some?
    requires forall n :: ProjectCopy(n) !in temps
    ensures var r := ReadLanguages(packageFile, archive, env, temps);
      var i := FirstProject(archive.entries).value;
      var copy := ProjectCopy(NameOf(archive.entries[i].name));
      && (r.status == Listed ==> r.temps == temps)
      && (r.status != Listed ==> r.temps == temps[copy := archive.entries[i].data])
      && (r.status.LangsRaised? || r.status.LangsCrashed? || r.status.Listed?)
  {
    var i := FirstProject(archive.entries).value;
    var copy := ProjectCopy(NameOf(archive.entries[i].name));
    assert copy !in temps;
    assert temps[copy := archive.entries[i].data] - {copy} == temps;
  }

  /** A package without a project file gives the "Project file not found" object and empty
      lists, unless its stream failed first. */
  lemma NoProjectFile(packageFile: string, archive: Archive, env: Env, temps: map<TempPath, Bytes>)
    requires forall j :: 0 <= j < |archive.entries| ==> !EndsWith(archive.entries[j].name, Classification.PROJECT_SUFFIX)
    ensures var r := ReadLanguages(Some(packageFile), archive, env, temps);
      && r.srcLangs == [] && r.tgtLangs == [] && r.temps == temps
      && r.status == (if archive.failure.Some? then LangsRaised(archive.failure.value) else ProjectMissing(NOT_FOUND_REASON))
  {
    assert forall j :: 0 <= j < |archive.entries| ==> !IsProject(archive.entries, j);
  }
}
