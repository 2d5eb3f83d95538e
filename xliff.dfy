/** The header patch `updateXliff` applies to each converted XLIFF 1.2 document
    (Sdlppx2Xliff.java lines 209-223): the tree is taken as a value and the patched tree returned. */
module Xliff {
  import opened Base
  import opened Xml
  import opened Oracles

  function SetAttribute(e: Element, key: string, value: string): Element
  {
    e.(attributes := e.attributes[key := value])
  }

  function AddContent(e: Element, n: Node): Element
  {
    e.(content := e.content + [n])
  }

  function ReplaceChild(e: Element, i: nat, c: Element): Element
    requires i < |e.content|
  {
    e.(content := e.content[i := ElementNode(c)])
  }

  /** `<prop-group name="document"><prop prop-type="original">original</prop></prop-group>` */
  function DocumentPropGroup(original: string): Element
  {
    Element("prop-group", map["name" := "document"],
      [ElementNode(Element("prop", map["prop-type" := "original"], [TextNode(original)]))])
  }

  /** The patched root, or `None` when one of `file`, `header`, `skl` or `external-file` is
      missing and `getChild` hands back `null`, so that the next call on it throws. */
  function PatchHeader(root: Element, original: string, cleanInput: string, cleanSkeleton: string): Option<Element>
  {
    match ChildIndex(root, "file")
    case None => None
    case Some(fi) =>
      var file := SetAttribute(SetAttribute(Child(root, "file"), "datatype", "x-sdlpackage"), "original", cleanInput);
      match ChildIndex(file, "header")
      case None => None
      case Some(hi) =>
        var header := AddContent(Child(file, "header"), ElementNode(DocumentPropGroup(original)));
        match ChildIndex(header, "skl")
        case None => None
        case Some(si) =>
          var skl := Child(header, "skl");
          match ChildIndex(skl, "external-file")
          case None => None
          case Some(xi) =>
            var ext := SetAttribute(Child(skl, "external-file"), "href", cleanSkeleton);
            Some(ReplaceChild(root, fi, ReplaceChild(file, hi, ReplaceChild(header, si, ReplaceChild(skl, xi, ext)))))
  }

  /** The document has every element the patch reaches. */
  predicate HasHeaderPath(root: Element)
  {
    && ChildIndex(root, "file").Some?
    && ChildIndex(Child(root, "file"), "header").Some?
    && ChildIndex(Child(Child(root, "file"), "header"), "skl").Some?
    && ChildIndex(Child(Child(Child(root, "file"), "header"), "skl"), "external-file").Some?
  }

  /** `b` is `a` with at most the child at position `i` changed, and that child keeps its name. */
  predicate SameBut(a: Element, b: Element, i: nat)
  {
    && a.name == b.name
    && |a.content| == |b.content|
    && i < |a.content| && a.content[i].ElementNode? && b.content[i].ElementNode?
    && a.content[i].element.name == b.content[i].element.name
    && forall j :: 0 <= j < |a.content| && j != i ==> a.content[j] == b.content[j]
  }

  /** The patch fails exactly when one of the four elements it reaches is missing. */
  lemma PatchFailsIffPathMissing(root: Element, original: string, cleanInput: string, cleanSkeleton: string)
    ensures PatchHeader(root, original, cleanInput, cleanSkeleton).None? <==> !HasHeaderPath(root)
  {
    if ChildIndex(root, "file").Some? {
      var f := Child(root, "file");
      var file := SetAttribute(SetAttribute(f, "datatype", "x-sdlpackage"), "original", cleanInput);
      assert ChildIndex(file, "header") == ChildIndex(f, "header");
      if ChildIndex(f, "header").Some? {
        var h := Child(f, "header");
        assert Child(file, "header") == h;
        AppendKeepsLookup(h.content, ElementNode(DocumentPropGroup(original)), "skl");
        var header := AddContent(h, ElementNode(DocumentPropGroup(original)));
        assert ChildIndex(header, "skl") == ChildIndex(h, "skl");
        if ChildIndex(h, "skl").Some? {
          assert Child(header, "skl") == Child(h, "skl");
        }
      }
    }
  }

  /** The patch makes exactly the four changes and nothing else: `datatype` and `original` set
      on `file`, one document property group appended to `header`, and `href` set on
      `skl/external-file`; every other attribute, child and position stays as it was. */
  lemma {:induction false} PatchHeaderEdits(root: Element, original: string, cleanInput: string, cleanSkeleton: string)
    requires HasHeaderPath(root)
    ensures PatchHeader(root, original, cleanInput, cleanSkeleton).Some?
    ensures var r := PatchHeader(root, original, cleanInput, cleanSkeleton).value;
      var f := Child(root, "file");
      var h := Child(f, "header");
      var s := Child(h, "skl");
      var x := Child(s, "external-file");
      && HasHeaderPath(r)
      && r.attributes == root.attributes
      && ChildIndex(r, "file") == ChildIndex(root, "file")
      && SameBut(root, r, ChildIndex(root, "file").value)
      && var f' := Child(r, "file");
      && f'.attributes == f.attributes["datatype" := "x-sdlpackage"]["original" := cleanInput]
      && ChildIndex(f', "header") == ChildIndex(f, "header")
      && SameBut(f, f', ChildIndex(f, "header").value)
      && var h' := Child(f', "header");
      && h'.attributes == h.attributes
      && |h'.content| == |h.content| + 1
      && h'.content[|h.content|] == ElementNode(DocumentPropGroup(original))
      && ChildIndex(h', "skl") == ChildIndex(h, "skl")
      && SameBut(h, h'.(content := h'.content[..|h.content|]), ChildIndex(h, "skl").value)
      && var s' := Child(h', "skl");
      && s'.attributes == s.attributes
      && ChildIndex(s', "external-file") == ChildIndex(s, "external-file")
      && SameBut(s, s', ChildIndex(s, "external-file").value)
      && var x' := Child(s', "external-file");
      && x'.name == x.name && x'.content == x.content
      && x'.attributes == x.attributes["href" := cleanSkeleton]
  {
    PatchFailsIffPathMissing(root, original, cleanInput, cleanSkeleton);
    var fi := ChildIndex(root, "file").value;
    var f := Child(root, "file");
    var file := SetAttribute(SetAttribute(f, "datatype", "x-sdlpackage"), "original", cleanInput);
    assert ChildIndex(file, "header") == ChildIndex(f, "header");
    var hi := ChildIndex(f, "header").value;
    var h := Child(f, "header");
    assert Child(file, "header") == h;
    var prop := ElementNode(DocumentPropGroup(original));
    AppendKeepsLookup(h.content, prop, "skl");
    var header := AddContent(h, prop);
    var si := ChildIndex(h, "skl").value;
    var s := Child(h, "skl");
    assert Child(header, "skl") == s;
    var xi := ChildIndex(s, "external-file").value;
    var x := Child(s, "external-file");
    var x' := SetAttribute(x, "href", cleanSkeleton);
    var s' := ReplaceChild(s, xi, x');
    var h' := ReplaceChild(header, si, s');
    var f' := ReplaceChild(file, hi, h');
    var r := ReplaceChild(root, fi, f');
    assert PatchHeader(root, original, cleanInput, cleanSkeleton) == Some(r);
    ReplaceKeepsLookups(root.content, fi, f', "file");
    ReplaceKeepsLookups(file.content, hi, h', "header");
    ReplaceKeepsLookups(header.content, si, s', "skl");
    ReplaceKeepsLookups(s.content, xi, x', "external-file");
    assert Child(r, "file") == f';
    assert Child(f', "header") == h';
    assert Child(h', "skl") == s';
    assert Child(s', "external-file") == x';
    assert h'.content[..|h.content|] == h.content[si := ElementNode(s')];
  }

  /** How `updateXliff` ends: the file rewritten with the patched document, a parse or I/O
      error thrown, or a `NullPointerException` on a missing element. */
  datatype PatchOutcome = Patched(xliff: Bytes) | PatchRaised(message: string) | PatchCrashed

  /** `updateXliff` on the bytes of one converted XLIFF file: `original` is the entry's
      in-archive name; `inputFile` and `skeleton` are the package and skeleton paths, which the
      patch writes through `Utils.cleanString`. */
  function UpdateXliff(xliff: Bytes, original: string, inputFile: string, skeleton: string, env: Env): PatchOutcome
  {
    match env.parse(xliff)
    case Err(m) => PatchRaised(m)
    case Ok(root) =>
      match PatchHeader(root, original, env.clean(inputFile), env.clean(skeleton))
      case None => PatchCrashed
      case Some(r) => Patched(env.serialize(r))
  }

  /** The file is rewritten exactly when it parses and has the whole header path, and then it
      holds the serialised patched tree; a parse error is passed on unchanged. */
  lemma UpdateXliffOutcomes(xliff: Bytes, original: string, inputFile: string, skeleton: string, env: Env)
    ensures var o := UpdateXliff(xliff, original, inputFile, skeleton, env);
      && (o.PatchRaised? <==> env.parse(xliff).Err?)
      && (o.PatchRaised? ==> o.message == env.parse(xliff).message)
      && (o.PatchCrashed? <==> env.parse(xliff).Ok? && !HasHeaderPath(env.parse(xliff).value))
      && (o.Patched? <==> env.parse(xliff).Ok? && HasHeaderPath(env.parse(xliff).value))
      && (o.Patched? ==> o.xliff == env.serialize(
            PatchHeader(env.parse(xliff).value, original, env.clean(inputFile), env.clean(skeleton)).value))
  {
    if env.parse(xliff).Ok? {
      PatchFailsIffPathMissing(env.parse(xliff).value, original, env.clean(inputFile), env.clean(skeleton));
    }
  }
}
