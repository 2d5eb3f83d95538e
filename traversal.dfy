/** The entry loop of `run` (Sdlppx2Xliff.java lines 115-181): each entry of the package is
    converted, copied or dropped, the skeleton archive grows by the entries it keeps, and the
    converted XLIFF files are collected for the join. */
module Traversal {
  import opened Base
  import opened JavaPaths
  import opened Xml
  import opened Oracles
  import opened Xliff
  import opened Classification

  /** What the loop reads but never changes: the caller's parameters, the resolved target
      and source codes, the package and skeleton paths and the foreign code. */
  datatype Ctx = Ctx(params: Params, target: JString, source: JString, inputFile: string, skeleton: string, env: Env)

  /** The converter's parameter table for entry `k`. The language codes are taken from the
      caller's parameters, not the resolved ones. */
  function Request(k: nat, params: Params): (r: ConversionRequest)
    ensures r.source == Extracted(k) && r.xliff == XlfOf(k) && r.skeleton == SklOf(k)
    ensures r.srcLang == Get(params, "srcLang") && r.tgtLang == Get(params, "tgtLang")
  {
    ConversionRequest(Extracted(k), XlfOf(k), SklOf(k), Get(params, "catalog"), Get(params, "srcLang"),
      Get(params, "tgtLang"), Get(params, "srcEncoding"), Get(params, "paragraph"), Get(params, "srxFile"),
      Get(params, "format"))
  }

  /** Whether the loop goes on, or an exception is on its way out of `run`: a checked one with
      its message, or an unchecked one. */
  datatype Stop = Running | Raised(message: string) | Crashed

  /** The loop's state: the entries written to the skeleton archive, the XLIFF files collected
      so far and the temporary directory. */
  datatype Walk = Walk(stop: Stop, out: seq<Entry>, xliffList: seq<TempPath>, temps: map<TempPath, Bytes>)

  function Start(temps: map<TempPath, Bytes>): Walk
  {
    Walk(Running, [], [], temps)
  }

  /** One pass of the loop body over entry `k`, file by file: extract the entry to a temporary
      file, hand it to the converter, patch and collect its XLIFF file and write its skeleton,
      or write the entry itself back; then delete the temporary files that are done with. */
  function Step(e: Entry, k: nat, ctx: Ctx, w: Walk): Walk
  {
    match Classify(e.name, ctx.target, ctx.source)
    case None => w.(stop := Crashed)
    case Some(Dropped) => w
    case Some(Passthrough) =>
      var extracted := w.temps[Extracted(k) := e.data];
      Walk(w.stop, w.out + [Entry(e.name, extracted[Extracted(k)])], w.xliffList, extracted - {Extracted(k)})
    case Some(Convert) =>
      var extracted := w.temps[Extracted(k) := e.data];
      match ctx.env.convert(Request(k, ctx.params), extracted[Extracted(k)])
      case ConversionFailed =>
        Walk(w.stop, w.out + [Entry(e.name, extracted[Extracted(k)])], w.xliffList, extracted - {Extracted(k)})
      case Converted(xlf, skl) =>
        var written := extracted[XlfOf(k) := xlf][SklOf(k) := skl];
        match UpdateXliff(written[XlfOf(k)], e.name, ctx.inputFile, ctx.skeleton, ctx.env)
        case PatchRaised(m) => w.(stop := Raised(m), temps := written)
        case PatchCrashed => w.(stop := Crashed, temps := written)
        case Patched(doc) =>
          var patched := written[XlfOf(k) := doc];
          Walk(w.stop, w.out + [Entry(e.name + ".skl", patched[SklOf(k)])], w.xliffList + [XlfOf(k)],
               patched - {SklOf(k)} - {Extracted(k)})
  }

  /** The loop over `entries`, entry `k` being the `k`-th the stream yields; it stops at the
      first exception. */
  function Traverse(entries: seq<Entry>, ctx: Ctx, w0: Walk): Walk
    decreases |entries|
  {
    if entries == [] then w0
    else
      var w := Traverse(entries[..|entries| - 1], ctx, w0);
      if w.stop.Running? then Step(entries[|entries| - 1], |entries| - 1, ctx, w) else w
  }

  // ---------------------------------------------------------------------------
  // Reference definition: what happens to each entry, without the temporary files
  // ---------------------------------------------------------------------------

  /** What becomes of one entry. */
  datatype Fate =
    | Aborts                                   // an unchecked exception ends `run`
    | Fails(message: string)                   // a checked exception ends `run`
    | Skipped                                  // not written to the skeleton archive
    | Copied                                   // written back unchanged
    | KeptOriginal                             // a document the converter rejected, written back unchanged
    | Translated(skeleton: Bytes, xliff: Bytes) // converted: its skeleton is written, its patched XLIFF kept

  function FateOf(e: Entry, k: nat, ctx: Ctx): Fate
  {
    match Classify(e.name, ctx.target, ctx.source)
    case None => Aborts
    case Some(Dropped) => Skipped
    case Some(Passthrough) => Copied
    case Some(Convert) =>
      match ctx.env.convert(Request(k, ctx.params), e.data)
      case ConversionFailed => KeptOriginal
      case Converted(xlf, skl) =>
        match UpdateXliff(xlf, e.name, ctx.inputFile, ctx.skeleton, ctx.env)
        case PatchRaised(m) => Fails(m)
        case PatchCrashed => Aborts
        case Patched(doc) => Translated(skl, doc)
  }

  predicate Fatal(f: Fate)
  {
    f.Aborts? || f.Fails?
  }

  function StopOf(f: Fate): Stop
  {
    match f
    case Aborts => Crashed
    case Fails(m) => Raised(m)
    case _ => Running
  }

  /** What an entry with that fate adds to the skeleton archive. */
  function Output(e: Entry, f: Fate): seq<Entry>
  {
    match f
    case Copied => [e]
    case KeptOriginal => [e]
    case Translated(skl, _) => [Entry(e.name + ".skl", skl)]
    case _ => []
  }

  /** The fate of every entry, entry `k` being the `k`-th the stream yields. */
  function Fates(entries: seq<Entry>, ctx: Ctx): (r: seq<Fate>)
    ensures |r| == |entries|
  {
    seq(|entries|, j requires 0 <= j < |entries| => FateOf(entries[j], j, ctx))
  }

  /** The first fate that ends the run. */
  function FirstFatal(fs: seq<Fate>): (r: Option<nat>)
    ensures r.Some? ==> r.value < |fs| && Fatal(fs[r.value])
    ensures r.Some? ==> forall j :: 0 <= j < r.value ==> !Fatal(fs[j])
    ensures r.None? ==> forall j :: 0 <= j < |fs| ==> !Fatal(fs[j])
    decreases |fs|
  {
    if fs == [] then None
    else
      var n := |fs| - 1;
      match FirstFatal(fs[..n])
      case Some(f) => Some(f)
      case None => if Fatal(fs[n]) then Some(n) else None
  }

  /** The skeleton archive the entries make, in entry order. */
  function Written(entries: seq<Entry>, fs: seq<Fate>): seq<Entry>
    requires |fs| == |entries|
    decreases |entries|
  {
    if entries == [] then []
    else
      var n := |entries| - 1;
      Written(entries[..n], fs[..n]) + Output(entries[n], fs[n])
  }

  /** The XLIFF files of the translated entries, in entry order. */
  function Xlfs(fs: seq<Fate>): seq<TempPath>
    decreases |fs|
  {
    if fs == [] then []
    else
      var n := |fs| - 1;
      Xlfs(fs[..n]) + (if fs[n].Translated? then [XlfOf(n)] else [])
  }

  /** The temporary directory after the loop: what it held before, plus the patched XLIFF
      file of every translated entry. */
  function Remaining(fs: seq<Fate>, temps0: map<TempPath, Bytes>): map<TempPath, Bytes>
    decreases |fs|
  {
    if fs == [] then temps0
    else
      var n := |fs| - 1;
      var m := Remaining(fs[..n], temps0);
      if fs[n].Translated? then m[XlfOf(n) := fs[n].xliff] else m
  }

  /** The temporary directory holds only project copies and XLIFF files. */
  predicate Clean(temps: map<TempPath, Bytes>)
  {
    forall p :: p in temps ==> p.ProjectCopy? || p.XlfOf?
  }

  lemma {:induction false} RemainingClean(fs: seq<Fate>, temps0: map<TempPath, Bytes>)
    requires Clean(temps0)
    ensures Clean(Remaining(fs, temps0))
    decreases |fs|
  {
    if fs != [] {
      RemainingClean(fs[..|fs| - 1], temps0);
    }
  }

  lemma FatesPrefix(entries: seq<Entry>, n: nat, ctx: Ctx)
    requires n <= |entries|
    ensures Fates(entries[..n], ctx) == Fates(entries, ctx)[..n]
  {
    assert forall j :: 0 <= j < n ==> entries[..n][j] == entries[j];
  }

  /** Creating a file and deleting it again leaves the directory as it was. */
  lemma CreateDelete(m: map<TempPath, Bytes>, p: TempPath, v: Bytes)
    requires p !in m
    ensures m[p := v] - {p} == m
  {
  }

  /** The files of a converted entry: all but its patched XLIFF file are deleted again. */
  lemma ConvertedFiles(m: map<TempPath, Bytes>, k: nat, data: Bytes, xlf: Bytes, skl: Bytes, doc: Bytes)
    requires Extracted(k) !in m && SklOf(k) !in m
    ensures m[Extracted(k) := data][XlfOf(k) := xlf][SklOf(k) := skl][XlfOf(k) := doc] - {SklOf(k)} - {Extracted(k)}
            == m[XlfOf(k) := doc]
  {
  }

  /** A pass over an entry that is copied through (a source-folder entry, a project file,
      or a document the converter rejects) writes it back and leaves the directory as it was. */
  lemma StepCopies(e: Entry, k: nat, ctx: Ctx, w: Walk)
    requires w.stop.Running? && Extracted(k) !in w.temps
    requires FateOf(e, k, ctx).Copied? || FateOf(e, k, ctx).KeptOriginal?
    ensures Step(e, k, ctx, w) == w.(out := w.out + [e])
  {
    CreateDelete(w.temps, Extracted(k), e.data);
  }

  /** A pass over a translated document writes its skeleton, collects its XLIFF file and
      leaves only that file behind. */
  lemma StepTranslates(e: Entry, k: nat, ctx: Ctx, w: Walk)
    requires w.stop.Running? && Extracted(k) !in w.temps && SklOf(k) !in w.temps
    requires FateOf(e, k, ctx).Translated?
    ensures var f := FateOf(e, k, ctx);
      Step(e, k, ctx, w) ==
      Walk(Running, w.out + [Entry(e.name + ".skl", f.skeleton)], w.xliffList + [XlfOf(k)], w.temps[XlfOf(k) := f.xliff])
  {
    var c := ctx.env.convert(Request(k, ctx.params), e.data);
    var u := UpdateXliff(c.xliff, e.name, ctx.inputFile, ctx.skeleton, ctx.env);
    ConvertedFiles(w.temps, k, e.data, c.xliff, c.skeleton, u.xliff);
  }

  /** One pass of the loop does to the state exactly what the entry's fate says, and every
      temporary file it creates besides the XLIFF file is gone again afterwards. */
  lemma StepMatchesFate(e: Entry, k: nat, ctx: Ctx, w: Walk)
    requires w.stop.Running? && Clean(w.temps)
    ensures var f := FateOf(e, k, ctx);
      var w' := Step(e, k, ctx, w);
      && w'.stop == StopOf(f)
      && (!Fatal(f) ==> w'.out == w.out + Output(e, f))
      && (!Fatal(f) ==> w'.xliffList == w.xliffList + (if f.Translated? then [XlfOf(k)] else []))
      && (!Fatal(f) ==> w'.temps == (if f.Translated? then w.temps[XlfOf(k) := f.xliff] else w.temps))
  {
    assert Extracted(k) !in w.temps && SklOf(k) !in w.temps;
    var f := FateOf(e, k, ctx);
    if f.Copied? || f.KeptOriginal? {
      StepCopies(e, k, ctx, w);
    } else if f.Translated? {
      StepTranslates(e, k, ctx, w);
    } else if Fatal(f) {
      StepStops(e, k, ctx, w);
    }
  }

  /** When no entry's fate ends the run, the loop matches the per-entry reference: it writes
      the whole reference archive, collects the XLIFF files of the translated entries in
      entry order, and of the files it created leaves only those behind. */
  lemma {:induction false} TraverseMatchesFates(entries: seq<Entry>, ctx: Ctx, temps0: map<TempPath, Bytes>)
    requires Clean(temps0)
    requires FirstFatal(Fates(entries, ctx)).None?
    ensures var w := Traverse(entries, ctx, Start(temps0));
      var fs := Fates(entries, ctx);
      && w.stop == Running
      && w.out == Written(entries, fs)
      && w.xliffList == Xlfs(fs)
      && w.temps == Remaining(fs, temps0)
    decreases |entries|
  {
    if entries != [] {
      var n := |entries| - 1;
      var prefix := entries[..n];
      var fs := Fates(entries, ctx);
      FatesPrefix(entries, n, ctx);
      assert FirstFatal(fs[..n]).None?;
      TraverseMatchesFates(prefix, ctx, temps0);
      var w := Traverse(prefix, ctx, Start(temps0));
      RemainingClean(fs[..n], temps0);
      StepMatchesFate(entries[n], n, ctx, w);
      assert fs[n] == FateOf(entries[n], n, ctx);
    }
  }

  /** Once an exception is on its way out, the remaining entries change nothing. */
  lemma {:induction false} StoppedStaysStopped(entries: seq<Entry>, m: nat, ctx: Ctx, w0: Walk)
    requires m <= |entries|
    requires !Traverse(entries[..m], ctx, w0).stop.Running?
    ensures Traverse(entries, ctx, w0) == Traverse(entries[..m], ctx, w0)
    decreases |entries|
  {
    if m < |entries| {
      var n := |entries| - 1;
      assert entries[..n][..m] == entries[..m];
      StoppedStaysStopped(entries[..n], m, ctx, w0);
    } else {
      assert entries[..m] == entries;
    }
  }

  /** A pass over an entry whose fate ends the run raises that exception and writes nothing. */
  lemma StepStops(e: Entry, k: nat, ctx: Ctx, w: Walk)
    requires Fatal(FateOf(e, k, ctx))
    ensures var w' := Step(e, k, ctx, w);
      w'.stop == StopOf(FateOf(e, k, ctx)) && w'.out == w.out && w'.xliffList == w.xliffList
  {
    var extracted := w.temps[Extracted(k) := e.data];
    assert extracted[Extracted(k)] == e.data;
    var c := ctx.env.convert(Request(k, ctx.params), e.data);
    if c.Converted? {
      assert extracted[XlfOf(k) := c.xliff][SklOf(k) := c.skeleton][XlfOf(k)] == c.xliff;
    }
  }

  /** One more entry: the loop runs its body on it unless an exception is already on its way. */
  lemma TraverseExtend(entries: seq<Entry>, i: nat, ctx: Ctx, w0: Walk)
    requires i < |entries|
    ensures var w := Traverse(entries[..i], ctx, w0);
      Traverse(entries[..i + 1], ctx, w0) == if w.stop.Running? then Step(entries[i], i, ctx, w) else w
  {
    assert entries[..i + 1][..i] == entries[..i];
  }

  /** The loop stops with the fate of the first entry that ends the run, having written what
      the entries before it write and collected their XLIFF files. */
  lemma TraverseStopsAtFirstFatal(entries: seq<Entry>, ctx: Ctx, temps0: map<TempPath, Bytes>)
    requires Clean(temps0)
    requires FirstFatal(Fates(entries, ctx)).Some?
    ensures var w := Traverse(entries, ctx, Start(temps0));
      var fs := Fates(entries, ctx);
      var f := FirstFatal(fs).value;
      && w.stop == StopOf(fs[f]) && !w.stop.Running?
      && w.out == Written(entries[..f], fs[..f])
      && w.xliffList == Xlfs(fs[..f])
  {
    var fs := Fates(entries, ctx);
    var f := FirstFatal(fs).value;
    FatesPrefix(entries, f, ctx);
    var before := entries[..f];
    assert FirstFatal(fs[..f]).None?;
    TraverseMatchesFates(before, ctx, temps0);
    var w := Traverse(before, ctx, Start(temps0));
    var upto := entries[..f + 1];
    assert upto[..f] == before && upto[f] == entries[f];
    assert fs[f] == FateOf(entries[f], f, ctx);
    StepStops(entries[f], f, ctx, w);
    assert Traverse(upto, ctx, Start(temps0)) == Step(entries[f], f, ctx, w);
    StoppedStaysStopped(entries, f + 1, ctx, Start(temps0));
  }

  /** What one pass of the loop writes is appended to what was there. */
  lemma StepExtends(e: Entry, k: nat, ctx: Ctx, w: Walk)
    ensures w.out <= Step(e, k, ctx, w).out
    ensures w.xliffList <= Step(e, k, ctx, w).xliffList
  {
    var w' := Step(e, k, ctx, w);
    var c := Classify(e.name, ctx.target, ctx.source);
    if c == Some(Passthrough) || c == Some(Convert) {
      var extracted := w.temps[Extracted(k) := e.data];
      if c == Some(Passthrough) {
        assert w'.out == w.out + [Entry(e.name, e.data)] && w'.xliffList == w.xliffList;
      } else {
        match ctx.env.convert(Request(k, ctx.params), extracted[Extracted(k)])
        case ConversionFailed =>
          assert w'.out == w.out + [Entry(e.name, e.data)] && w'.xliffList == w.xliffList;
        case Converted(xlf, skl) =>
          var u := UpdateXliff(xlf, e.name, ctx.inputFile, ctx.skeleton, ctx.env);
          if u.Patched? {
            assert w'.out == w.out + [Entry(e.name + ".skl", skl)] && w'.xliffList == w.xliffList + [XlfOf(k)];
          } else {
            assert w'.out == w.out && w'.xliffList == w.xliffList;
          }
      }
    } else {
      assert w'.out == w.out && w'.xliffList == w.xliffList;
    }
  }

  /** The skeleton archive and the XLIFF list only ever grow: what the loop has written after
      the first `n` entries is a prefix of what it has written at the end. */
  lemma {:induction false} TraverseAppendOnly(entries: seq<Entry>, n: nat, ctx: Ctx, w0: Walk)
    requires n <= |entries|
    ensures Traverse(entries[..n], ctx, w0).out <= Traverse(entries, ctx, w0).out
    ensures Traverse(entries[..n], ctx, w0).xliffList <= Traverse(entries, ctx, w0).xliffList
    decreases |entries|
  {
    if n < |entries| {
      var m := |entries| - 1;
      var prefix := entries[..m];
      assert prefix[..n] == entries[..n];
      TraverseAppendOnly(prefix, n, ctx, w0);
      StepExtends(entries[m], m, ctx, Traverse(prefix, ctx, w0));
    } else {
      assert entries[..n] == entries;
    }
  }

  /** The XLIFF list names distinct files, each that of a translated entry. */
  lemma {:induction false} XlfsAreTranslated(fs: seq<Fate>)
    ensures forall i, j :: 0 <= i < j < |Xlfs(fs)| ==> Xlfs(fs)[i] != Xlfs(fs)[j]
    ensures forall p :: p in Xlfs(fs) ==> p.XlfOf? && p.index < |fs| && fs[p.index].Translated?
    decreases |fs|
  {
    if fs != [] {
      var n := |fs| - 1;
      XlfsAreTranslated(fs[..n]);
    }
  }

  /** The patched XLIFF documents of the translated entries, in entry order: what the join
      reads. */
  function XliffDocs(fs: seq<Fate>): seq<Bytes>
    decreases |fs|
  {
    if fs == [] then []
    else
      var n := |fs| - 1;
      XliffDocs(fs[..n]) + (if fs[n].Translated? then [fs[n].xliff] else [])
  }

  /** The files a list names. */
  function Members(xs: seq<TempPath>): set<TempPath>
  {
    set x | x in xs
  }

  /** The files of a list prefix one longer. */
  lemma MembersExtend(xs: seq<TempPath>, j: nat)
    requires j < |xs|
    ensures Members(xs[..j + 1]) == Members(xs[..j]) + {xs[j]}
  {
    assert xs[..j + 1] == xs[..j] + [xs[j]];
  }

  /** The bytes of the listed files, in list order. */
  function Docs(xs: seq<TempPath>, temps: map<TempPath, Bytes>): (r: seq<Bytes>)
    requires forall x :: x in xs ==> x in temps
    ensures |r| == |xs|
  {
    seq(|xs|, j requires 0 <= j < |xs| => temps[xs[j]])
  }

  /** Each collected XLIFF file is still in the directory, holding its entry's patched
      document, and the directory holds nothing else that the loop created. */
  lemma {:induction false} RemainingFiles(fs: seq<Fate>, temps0: map<TempPath, Bytes>)
    ensures forall x :: x in Xlfs(fs) ==>
      && x.XlfOf? && x.index < |fs| && fs[x.index].Translated?
      && x in Remaining(fs, temps0) && Remaining(fs, temps0)[x] == fs[x.index].xliff
    ensures forall p :: p in Remaining(fs, temps0) ==> p in temps0 || p in Xlfs(fs)
    ensures forall p :: p in temps0 && p !in Xlfs(fs) ==> p in Remaining(fs, temps0) && Remaining(fs, temps0)[p] == temps0[p]
    decreases |fs|
  {
    if fs != [] {
      var n := |fs| - 1;
      RemainingFiles(fs[..n], temps0);
      XlfsAreTranslated(fs[..n]);
    }
  }

  /** The documents read from the collected files are the translated entries' patched XLIFF
      documents, in entry order. */
  lemma {:induction false} DocsAreXliffDocs(fs: seq<Fate>, temps0: map<TempPath, Bytes>)
    ensures forall x :: x in Xlfs(fs) ==> x in Remaining(fs, temps0)
    ensures Docs(Xlfs(fs), Remaining(fs, temps0)) == XliffDocs(fs)
    decreases |fs|
  {
    RemainingFiles(fs, temps0);
    if fs != [] {
      var n := |fs| - 1;
      DocsAreXliffDocs(fs[..n], temps0);
      RemainingFiles(fs[..n], temps0);
      XlfsAreTranslated(fs[..n]);
      var xs := Xlfs(fs[..n]);
      var r, r' := Remaining(fs, temps0), Remaining(fs[..n], temps0);
      assert forall x :: x in xs ==> r[x] == r'[x];
      if fs[n].Translated? {
        var ys := Xlfs(fs);
        assert ys == xs + [XlfOf(n)];
        assert r == r'[XlfOf(n) := fs[n].xliff];
        forall j | 0 <= j < |ys| ensures Docs(ys, r)[j] == (Docs(xs, r') + [fs[n].xliff])[j] {
          if j < |xs| {
            assert ys[j] == xs[j] && xs[j] in xs;
          }
        }
        assert Docs(ys, r) == Docs(xs, r') + [fs[n].xliff];
      } else {
        assert Docs(Xlfs(fs), r) == Docs(xs, r');
      }
    }
  }

  /** When the loop runs to the end, every collected XLIFF file is in the directory. */
  lemma TraverseKeepsXlfs(entries: seq<Entry>, ctx: Ctx, temps0: map<TempPath, Bytes>)
    requires Clean(temps0)
    ensures var w := Traverse(entries, ctx, Start(temps0));
      w.stop.Running? ==> forall x :: x in w.xliffList ==> x in w.temps
  {
    var fs := Fates(entries, ctx);
    if FirstFatal(fs).Some? {
      TraverseStopsAtFirstFatal(entries, ctx, temps0);
    } else {
      TraverseMatchesFates(entries, ctx, temps0);
      RemainingFiles(fs, temps0);
    }
  }

  // ---------------------------------------------------------------------------
  // Two properties of single entries
  // ---------------------------------------------------------------------------

  /** A document the converter rejects is copied to the skeleton archive as it was, and the
      loop goes on: a failed conversion is not an error of `run`. */
  lemma FailedConversionKeepsOriginal(e: Entry, k: nat, ctx: Ctx, w: Walk)
    requires w.stop.Running? && Clean(w.temps)
    requires Classify(e.name, ctx.target, ctx.source) == Some(Convert)
    requires ctx.env.convert(Request(k, ctx.params), e.data) == ConversionFailed
    ensures Step(e, k, ctx, w) == w.(out := w.out + [e])
  {
    StepMatchesFate(e, k, ctx, w);
  }

  /** The converter is told the language codes the caller asked for, even when a
      case-insensitive match resolved the target to a differently written code. */
  lemma RequestCarriesRequestedCodes(params: Params, k: nat)
    requires params == map["srcLang" := "EN-us", "tgtLang" := "DE-de"]
    ensures Request(k, params).tgtLang == Some("DE-de") && Request(k, params).srcLang == Some("EN-us")
    ensures Request(k, params).catalog.None?
  {
  }

  // ---------------------------------------------------------------------------
  // The temporary-file prefix, as written
  // ---------------------------------------------------------------------------

  /** In a document name the last dot is the one that starts the suffix, so the prefix handed
      to `File.createTempFile` is the name without `.sdlxliff`. */
  lemma DocumentStem(name: string)
    requires EndsWith(name, XLIFF_SUFFIX)
    ensures LastIndexOf(name, '.') == |name| - |XLIFF_SUFFIX|
  {
    var d := |name| - |XLIFF_SUFFIX|;
    assert name[d..] == XLIFF_SUFFIX;
    assert name[d] == '.';
    forall j | d < j < |name| ensures name[j] != '.' {
      assert name[j] == XLIFF_SUFFIX[j - d];
    }
  }

  /** The loop body as written: `File.createTempFile` refuses a prefix shorter than three
      characters with an `IllegalArgumentException`, so a document whose name without the
      suffix is that short ends the whole run before the converter sees it. */
  function StepAsWritten(e: Entry, k: nat, ctx: Ctx, w: Walk): Walk
  {
    var name := NameOf(e.name);
    if Classify(e.name, ctx.target, ctx.source) == Some(Convert) && LastIndexOf(name, '.') < 3
    then w.(stop := Crashed)
    else Step(e, k, ctx, w)
  }

  /** A target-folder document whose name without `.sdlxliff` is shorter than three
      characters stops the run as written, while the intended loop offers it to the converter
      and, when the converter rejects it, copies it through and goes on. */
  lemma ShortStemAborts(dir: string, stem: string, data: Bytes, k: nat, ctx: Ctx, w: Walk)
    requires Component(dir) && Component(stem + XLIFF_SUFFIX) && |stem| < 3
    requires ctx.target == Some(dir)
    requires w.stop.Running? && Clean(w.temps)
    requires ctx.env.convert(Request(k, ctx.params), data) == ConversionFailed
    ensures var e := Entry(dir + "/" + (stem + XLIFF_SUFFIX), data);
      && StepAsWritten(e, k, ctx, w).stop == Crashed
      && Step(e, k, ctx, w) == w.(out := w.out + [e])
  {
    var name := stem + XLIFF_SUFFIX;
    var e := Entry(dir + "/" + name, data);
    assert name[|stem|..] == XLIFF_SUFFIX;
    TopLevelEntry(dir, name);
    TargetFolderDocumentConverts(dir, name, ctx.source);
    DocumentStem(name);
    FailedConversionKeepsOriginal(e, k, ctx, w);
  }

  /** The smallest such input: `de-DE/ab.sdlxliff` in a package translated into `de-DE`. */
  lemma ShortDocumentNameAborts(data: Bytes, k: nat, ctx: Ctx, w: Walk)
    requires ctx.target == Some("de-DE")
    requires w.stop.Running? && Clean(w.temps)
    requires ctx.env.convert(Request(k, ctx.params), data) == ConversionFailed
    ensures StepAsWritten(Entry("de-DE/ab.sdlxliff", data), k, ctx, w).stop == Crashed
    ensures Step(Entry("de-DE/ab.sdlxliff", data), k, ctx, w).stop == Running
  {
    assert "de-DE/ab.sdlxliff" == "de-DE" + "/" + ("ab" + XLIFF_SUFFIX);
    ShortStemAborts("de-DE", "ab", data, k, ctx, w);
  }

  /** In the corrected loop (the one the rest of the model uses) the length of a document's
      name plays no part: two documents in the same folder with the same bytes, offered at
      the same position, meet the same fate whatever their names. */
  lemma FateIgnoresNameLength(dir: string, a: string, b: string, data: Bytes, k: nat, ctx: Ctx)
    requires Component(dir) && Component(a) && Component(b)
    requires EndsWith(a, XLIFF_SUFFIX) && EndsWith(b, XLIFF_SUFFIX)
    requires ctx.target == Some(dir)
    requires ctx.env.convert(Request(k, ctx.params), data) == ConversionFailed
    ensures FateOf(Entry(dir + "/" + a, data), k, ctx) == KeptOriginal
    ensures FateOf(Entry(dir + "/" + b, data), k, ctx) == KeptOriginal
  {
    TopLevelEntry(dir, a);
    TopLevelEntry(dir, b);
  }
}
