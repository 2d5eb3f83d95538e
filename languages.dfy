/** The package's language lists and how a requested language code is matched against them. */
module Languages {
  import opened Base

  // ---------------------------------------------------------------------------
  // Duplicate-free lists in first-seen order
  // ---------------------------------------------------------------------------

  predicate NoDuplicates<T(==)>(s: seq<T>)
  {
    forall i, j :: 0 <= i < j < |s| ==> s[i] != s[j]
  }

  /** The list `getPackageLanguages` builds when it appends each value it has not seen yet. */
  function Dedup<T(==)>(s: seq<T>): seq<T>
    decreases |s|
  {
    if s == [] then []
    else
      var d := Dedup(s[..|s| - 1]);
      if s[|s| - 1] in d then d else d + [s[|s| - 1]]
  }

  /** Where `x` first occurs in `s`. */
  function FirstIndex<T(==)>(s: seq<T>, x: T): (r: nat)
    requires x in s
    ensures r < |s| && s[r] == x
    ensures forall j :: 0 <= j < r ==> s[j] != x
  {
    if s[0] == x then 0 else 1 + FirstIndex(s[1..], x)
  }

  lemma {:induction false} FirstIndexInPrefix<T>(s: seq<T>, n: nat, x: T)
    requires n <= |s| && x in s[..n]
    ensures FirstIndex(s, x) == FirstIndex(s[..n], x)
  {
    var k := FirstIndex(s[..n], x);
    assert s[k] == x;
  }

  lemma {:induction false} DedupSameElements<T>(s: seq<T>)
    ensures forall x :: x in Dedup(s) ==> x in s
    ensures forall x :: x in s ==> x in Dedup(s)
    decreases |s|
  {
    if s != [] {
      var p := s[..|s| - 1];
      DedupSameElements(p);
      assert s == p + [s[|s| - 1]];
    }
  }

  /** The list holds exactly the values of `s`, each once, ordered by where each first occurs. */
  lemma {:induction false} DedupIsFirstSeen<T>(s: seq<T>)
    ensures forall x :: x in Dedup(s) ==> x in s
    ensures forall x :: x in s ==> x in Dedup(s)
    ensures NoDuplicates(Dedup(s))
    ensures forall i, j :: 0 <= i < j < |Dedup(s)| ==>
              FirstIndex(s, Dedup(s)[i]) < FirstIndex(s, Dedup(s)[j])
    decreases |s|
  {
    if s != [] {
      var p := s[..|s| - 1];
      var last := s[|s| - 1];
      DedupIsFirstSeen(p);
      DedupSameElements(p);
      DedupSameElements(s);
      var d := Dedup(p);
      assert s == p + [last];
      assert forall x :: x in s <==> x in p || x == last;
      forall x | x in d ensures FirstIndex(s, x) == FirstIndex(p, x) {
        assert x in p;
        FirstIndexInPrefix(s, |s| - 1, x);
      }
      if last in d {
        assert Dedup(s) == d;
      } else {
        var d' := d + [last];
        assert Dedup(s) == d';
        assert FirstIndex(s, last) == |s| - 1;
        forall i, j | 0 <= i < j < |d'| ensures FirstIndex(s, d'[i]) < FirstIndex(s, d'[j]) {
          assert d'[i] == d[i] && d[i] in d;
          if j < |d| {
            assert d'[j] == d[j] && d[j] in d;
          } else {
            assert FirstIndex(p, d[i]) < |p|;
          }
        }
      }
    }
  }

  // ---------------------------------------------------------------------------
  // Case-insensitive comparison (String.equalsIgnoreCase on ASCII letters)
  // ---------------------------------------------------------------------------

  function AsciiUpper(c: char): char
  {
    if 'a' <= c <= 'z' then (c as int - 32) as char else c
  }

  predicate EqualsIgnoreCase(a: string, b: string)
  {
    |a| == |b| && forall i :: 0 <= i < |a| ==> AsciiUpper(a[i]) == AsciiUpper(b[i])
  }

  // ---------------------------------------------------------------------------
  // Resolving a requested code against one role's list
  // ---------------------------------------------------------------------------

  datatype Role = TargetRole | SourceRole

  /** The message that opens the error for a code that is not in the list. */
  function InvalidPrefix(role: Role): string
  {
    match role
    case TargetRole => "Incorrect target language. Valid options:"
    case SourceRole => "Incorrect source language. Valid options:"
  }

  /** How `StringBuilder.append` renders a list element. */
  function Text(code: JString): string
  {
    if code.None? then "null" else code.value
  }

  /** Every option, each preceded by one space, in list order. */
  function Options(langs: seq<JString>): string
    decreases |langs|
  {
    if langs == [] then ""
    else Options(langs[..|langs| - 1]) + " " + Text(langs[|langs| - 1])
  }

  /** The `for`-with-`break` loop: the first element equal to `requested` ignoring case.
      Calling `equalsIgnoreCase` on a `null` element throws. */
  datatype Lookup = Found(code: JString) | NotFound | NullElement

  function IgnoreCaseSearch(requested: JString, langs: seq<JString>): Lookup
    decreases |langs|
  {
    if langs == [] then NotFound
    else if langs[0].None? then NullElement
    else if requested.Some? && EqualsIgnoreCase(langs[0].value, requested.value) then Found(langs[0])
    else IgnoreCaseSearch(requested, langs[1..])
  }

  /** The outcome of validating one requested language. `Crashed` is the
      `NullPointerException` of the search. */
  datatype Selection = Selected(code: JString) | Rejected(message: string) | Crashed

  function Select(requested: JString, langs: seq<JString>, role: Role): Selection
  {
    if requested in langs then Selected(requested)
    else match IgnoreCaseSearch(requested, langs)
      case Found(c) => Selected(c)
      case NotFound => Rejected(InvalidPrefix(role) + Options(langs))
      case NullElement => Crashed
  }

  /** What the search finds is an option equal to the request ignoring case, and it can only
      crash on a `null` option. */
  lemma {:induction false} SearchFinds(requested: JString, langs: seq<JString>)
    ensures var l := IgnoreCaseSearch(requested, langs);
      && (l.Found? ==> l.code in langs && l.code.Some? && requested.Some? &&
                       EqualsIgnoreCase(l.code.value, requested.value))
      && (l.NullElement? ==> None in langs)
    decreases |langs|
  {
    if langs != [] && langs[0].Some? &&
       !(requested.Some? && EqualsIgnoreCase(langs[0].value, requested.value)) {
      SearchFinds(requested, langs[1..]);
      var l := IgnoreCaseSearch(requested, langs[1..]);
      if l.Found? { assert l.code in langs[1..]; }
      if l.NullElement? { assert None in langs[1..]; }
    }
  }

  /** A listed code is kept as it is; any other selected code is one of the options; a crash
      needs a `null` option. */
  lemma SelectOutcomes(requested: JString, langs: seq<JString>, role: Role)
    ensures requested in langs ==> Select(requested, langs, role) == Selected(requested)
    ensures Select(requested, langs, role).Selected? ==> Select(requested, langs, role).code in langs
    ensures Select(requested, langs, role).Crashed? ==> requested !in langs && None in langs
    ensures Select(requested, langs, role).Rejected? ==> requested !in langs
  {
    SearchFinds(requested, langs);
  }

  /** The search moves past a non-null element that does not match. */
  lemma SearchStep(requested: JString, langs: seq<JString>, i: nat)
    requires i < |langs|
    ensures IgnoreCaseSearch(requested, langs[i..]) ==
      if langs[i].None? then NullElement
      else if requested.Some? && EqualsIgnoreCase(langs[i].value, requested.value) then Found(langs[i])
      else IgnoreCaseSearch(requested, langs[i + 1..])
  {
    assert langs[i..][0] == langs[i];
    assert langs[i..][1..] == langs[i + 1..];
  }

  /** The options of a list one element longer. */
  lemma OptionsStep(langs: seq<JString>, i: nat)
    requires i < |langs|
    ensures Options(langs[..i + 1]) == Options(langs[..i]) + " " + Text(langs[i])
  {
    assert langs[..i + 1][..i] == langs[..i];
  }

  /** Lines 72-90 (target) and 92-110 (source) of `run`: keep an exact member, else take the
      first case-insensitive match, else build the error that lists every option. */
  method SelectLanguage(requested: JString, langs: seq<JString>, role: Role) returns (sel: Selection)
    ensures sel == Select(requested, langs, role)
  {
    var code := requested;
    if code !in langs {
      var i := 0;
      while i < |langs|
        invariant 0 <= i <= |langs|
        invariant code == requested
        invariant IgnoreCaseSearch(requested, langs) == IgnoreCaseSearch(requested, langs[i..])
      {
        SearchStep(requested, langs, i);
        var lang := langs[i];
        if lang.None? {
          return Crashed;
        }
        if code.Some? && EqualsIgnoreCase(lang.value, code.value) {
          code := lang;
          break;
        }
        i := i + 1;
      }
      if i == |langs| {
        assert langs[i..] == [];
      }
    }
    if code !in langs {
      var message := RejectionMessage(langs, role);
      return Rejected(message);
    }
    return Selected(code);
  }

  /** Lines 83-88 (and 103-108): the error message, built option by option. */
  method RejectionMessage(langs: seq<JString>, role: Role) returns (message: string)
    ensures message == InvalidPrefix(role) + Options(langs)
  {
    message := InvalidPrefix(role);
    for i := 0 to |langs|
      invariant message == InvalidPrefix(role) + Options(langs[..i])
    {
      OptionsStep(langs, i);
      message := message + " " + Text(langs[i]);
    }
    assert langs[..|langs|] == langs;
  }

  predicate NoNulls(langs: seq<JString>)
  {
    forall i :: 0 <= i < |langs| ==> langs[i].Some?
  }

  predicate MatchesAt(requested: JString, langs: seq<JString>, i: nat)
    requires i < |langs|
  {
    requested.Some? && langs[i].Some? && EqualsIgnoreCase(langs[i].value, requested.value)
  }

  lemma {:induction false} SearchFindsFirstMatch(requested: JString, langs: seq<JString>, i: nat)
    requires NoNulls(langs) && i < |langs| && MatchesAt(requested, langs, i)
    requires forall j :: 0 <= j < i ==> !MatchesAt(requested, langs, j)
    ensures IgnoreCaseSearch(requested, langs) == Found(langs[i])
    decreases i
  {
    if i > 0 {
      assert !MatchesAt(requested, langs, 0);
      forall j | 0 <= j < i - 1 ensures !MatchesAt(requested, langs[1..], j) {
        assert langs[1..][j] == langs[j + 1];
        assert !MatchesAt(requested, langs, j + 1);
      }
      assert MatchesAt(requested, langs[1..], i - 1) by { assert langs[1..][i - 1] == langs[i]; }
      SearchFindsFirstMatch(requested, langs[1..], i - 1);
    }
  }

  lemma {:induction false} SearchMissesAll(requested: JString, langs: seq<JString>)
    requires NoNulls(langs)
    ensures IgnoreCaseSearch(requested, langs) == NotFound <==>
            forall j :: 0 <= j < |langs| ==> !MatchesAt(requested, langs, j)
    ensures IgnoreCaseSearch(requested, langs) != NullElement
    decreases |langs|
  {
    if langs != [] {
      var rest := langs[1..];
      forall j | 0 <= j < |rest| ensures rest[j] == langs[j + 1] && rest[j].Some? {
        assert langs[j + 1].Some?;
      }
      SearchMissesAll(requested, rest);
      forall j | 0 <= j < |rest| ensures MatchesAt(requested, rest, j) == MatchesAt(requested, langs, j + 1) {
      }
      assert langs[0].Some?;
      if !MatchesAt(requested, langs, 0) {
        if exists j :: 0 <= j < |langs| && MatchesAt(requested, langs, j) {
          var j :| 0 <= j < |langs| && MatchesAt(requested, langs, j);
          assert MatchesAt(requested, rest, j - 1);
        }
      }
    }
  }

  lemma {:induction false} SearchResultListed(requested: JString, langs: seq<JString>)
    ensures IgnoreCaseSearch(requested, langs).Found? ==>
      exists i :: 0 <= i < |langs| && MatchesAt(requested, langs, i) &&
                  IgnoreCaseSearch(requested, langs).code == langs[i]
    decreases |langs|
  {
    if langs != [] && langs[0].Some? && !MatchesAt(requested, langs, 0) {
      SearchResultListed(requested, langs[1..]);
      if IgnoreCaseSearch(requested, langs).Found? {
        var i :| 0 <= i < |langs[1..]| && MatchesAt(requested, langs[1..], i) &&
                 IgnoreCaseSearch(requested, langs[1..]).code == langs[1..][i];
        assert MatchesAt(requested, langs, i + 1);
      }
    } else if langs != [] && langs[0].Some? {
      assert MatchesAt(requested, langs, 0);
    }
  }

  /** A case-insensitive match is only used when the code is not an exact member; the
      first matching element wins and keeps the list's casing. */
  lemma IgnoreCaseFallback(requested: JString, langs: seq<JString>, role: Role, i: nat)
    requires NoNulls(langs) && requested !in langs
    requires i < |langs| && MatchesAt(requested, langs, i)
    requires forall j :: 0 <= j < i ==> !MatchesAt(requested, langs, j)
    ensures Select(requested, langs, role) == Selected(langs[i])
  {
    SearchFindsFirstMatch(requested, langs, i);
  }

  /** With no `null` in the list, the code is rejected exactly when no option equals it
      ignoring case, and the error then lists every option. */
  lemma RejectedIffNoMatch(requested: JString, langs: seq<JString>, role: Role)
    requires NoNulls(langs)
    ensures Select(requested, langs, role).Rejected? <==>
            forall j :: 0 <= j < |langs| ==> !MatchesAt(requested, langs, j)
    ensures Select(requested, langs, role).Rejected? ==>
            Select(requested, langs, role).message == InvalidPrefix(role) + Options(langs)
    ensures Select(requested, langs, role) != Crashed
  {
    SearchMissesAll(requested, langs);
    if requested in langs {
      var k :| 0 <= k < |langs| && langs[k] == requested;
      assert MatchesAt(requested, langs, k);
    }
  }

  /** Whatever is selected is an element of the list. */
  lemma SelectedIsListed(requested: JString, langs: seq<JString>, role: Role)
    ensures Select(requested, langs, role).Selected? ==>
      Select(requested, langs, role).code in langs &&
      (Select(requested, langs, role).code == requested ||
       exists i :: 0 <= i < |langs| && MatchesAt(requested, langs, i) &&
                   Select(requested, langs, role).code == langs[i])
  {
    SearchResultListed(requested, langs);
  }

  // ---------------------------------------------------------------------------
  // The options can be read back from the error message
  // ---------------------------------------------------------------------------

  /** Splits the text after the message prefix back into its options. */
  function Words(s: string): seq<string>
    decreases |s|
  {
    var k := LastIndexOf(s, ' ');
    if s == [] then []
    else if k < 0 then [s]
    else Words(s[..k]) + [s[k + 1..]]
  }

  function Texts(langs: seq<JString>): (r: seq<string>)
    ensures |r| == |langs|
    ensures forall i :: 0 <= i < |langs| ==> r[i] == Text(langs[i])
    decreases |langs|
  {
    if langs == [] then [] else Texts(langs[..|langs| - 1]) + [Text(langs[|langs| - 1])]
  }

  /** When no option holds a space, the error message gives back every option, in order. */
  lemma {:induction false} MessageListsOptions(langs: seq<JString>)
    requires forall i :: 0 <= i < |langs| ==> ' ' !in Text(langs[i])
    ensures Words(Options(langs)) == Texts(langs)
    decreases |langs|
  {
    if langs != [] {
      var p := langs[..|langs| - 1];
      var w := Text(langs[|langs| - 1]);
      assert ' ' !in w;
      assert forall i :: 0 <= i < |p| ==> p[i] == langs[i];
      MessageListsOptions(p);
      assert Options(langs) == Options(p) + " " + w;
      WordsStep(Options(p), w);
      assert Texts(langs) == Texts(p) + [w];
    }
  }

  /** Appending one space-free word after a space adds exactly that word. */
  lemma WordsStep(prefix: string, w: string)
    requires ' ' !in w
    ensures Words(prefix + " " + w) == Words(prefix) + [w]
  {
    var k := |prefix|;
    var p := prefix + " ";
    var s := p + w;
    assert |p| == k + 1 && p[k] == ' ';
    forall j | k < j < |s| ensures s[j] != ' ' {
      assert s[j] == w[j - k - 1] && w[j - k - 1] in w;
    }
    LastIndexOfAt(s, ' ', k);
    assert s[..k] == prefix;
    assert s[k + 1..] == w;
  }

  /** The two resolutions given as examples for the directions en-US to de-DE and en-US to fr-FR. */
  lemma TargetExampleResolves()
    ensures Select(Some("DE-de"), [Some("de-DE"), Some("fr-FR")], TargetRole) == Selected(Some("de-DE"))
  {
    var langs := [Some("de-DE"), Some("fr-FR")];
    assert "DE-de" != "de-DE" by { assert "DE-de"[0] != "de-DE"[0]; }
    assert "DE-de" != "fr-FR" by { assert "DE-de"[0] != "fr-FR"[0]; }
    assert Some("DE-de") !in langs;
    assert EqualsIgnoreCase("de-DE", "DE-de");
  }

  /** The options of the example, as the error message renders them. */
  lemma ExampleOptions()
    ensures Options([Some("de-DE"), Some("fr-FR")]) == " de-DE fr-FR"
  {
    var langs := [Some("de-DE"), Some("fr-FR")];
    assert langs[..1] == [Some("de-DE")];
    assert Options(langs[..1]) == " de-DE" by { assert langs[..1][..0] == []; }
  }

  /** No option of the example matches `xx-XX`, even ignoring case. */
  lemma ExampleNoMatch()
    ensures Some("xx-XX") !in [Some("de-DE"), Some("fr-FR")]
    ensures IgnoreCaseSearch(Some("xx-XX"), [Some("de-DE"), Some("fr-FR")]) == NotFound
  {
    var langs := [Some("de-DE"), Some("fr-FR")];
    assert "xx-XX" != "de-DE" by { assert "xx-XX"[0] != "de-DE"[0]; }
    assert "xx-XX" != "fr-FR" by { assert "xx-XX"[0] != "fr-FR"[0]; }
    assert !EqualsIgnoreCase("de-DE", "xx-XX") by { assert AsciiUpper("de-DE"[0]) != AsciiUpper("xx-XX"[0]); }
    assert !EqualsIgnoreCase("fr-FR", "xx-XX") by { assert AsciiUpper("fr-FR"[0]) != AsciiUpper("xx-XX"[0]); }
    assert langs[1..] == [Some("fr-FR")];
    assert IgnoreCaseSearch(Some("xx-XX"), [Some("fr-FR")][1..]) == NotFound;
  }

  /** An unknown code is refused with "Incorrect target language. Valid options: de-DE fr-FR". */
  lemma TargetExampleRejected()
    ensures Select(Some("xx-XX"), [Some("de-DE"), Some("fr-FR")], TargetRole)
         == Rejected(InvalidPrefix(TargetRole) + " de-DE fr-FR")
  {
    ExampleNoMatch();
    ExampleOptions();
  }
}
