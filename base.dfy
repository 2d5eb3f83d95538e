/** Values shared by every part of the SDL package converter model. */
module Base {

  datatype Option<+T> = None | Some(value: T)

  /** The outcome of a foreign call that may throw a checked exception carrying `message`. */
  datatype Result<+T> = Ok(value: T) | Err(message: string)

  newtype byte = x: int | 0 <= x < 256

  type Bytes = seq<byte>

  /** A Java `String` reference: `None` stands for `null`. */
  type JString = Option<string>

  /** One entry of a zip archive: its full in-archive name and its uncompressed bytes. */
  datatype Entry = Entry(name: string, data: Bytes)

  /** What a forward-only zip stream yields: the entries it reads, in order, and the
      message of the I/O exception that ends the stream early, if any. A file that cannot
      be opened at all yields no entries and a failure. */
  datatype Archive = Archive(entries: seq<Entry>, failure: Option<string>)

  /** The conversion parameters handed to `run`. A missing key reads as `null`. */
  type Params = map<string, string>

  function Get(params: Params, key: string): (r: JString)
    ensures r.Some? <==> key in params
    ensures r.Some? ==> r.value == params[key]
  {
    if key in params then Some(params[key]) else None
  }

  /** A file in the temporary directory, named by what it holds. `ProjectCopy` is the
      fixed-name copy of the project file; the other three belong to the archive entry with
      that index: the extracted entry (`File.createTempFile`) and the `.xlf` and `.skl` files the
      document converter writes beside it. Distinct values name distinct files. */
  datatype TempPath = ProjectCopy(name: string) | Extracted(index: nat) | XlfOf(index: nat) | SklOf(index: nat)

  /** The result codes of the converters. */
  const SUCCESS: string := "0"
  const ERROR: string := "1"

  /** `String.endsWith`. */
  predicate EndsWith(s: string, suffix: string)
  {
    |suffix| <= |s| && s[|s| - |suffix|..] == suffix
  }

  /** `String.lastIndexOf`: -1 when the character does not occur. */
  function LastIndexOf(s: string, c: char): (r: int)
    ensures -1 <= r < |s|
    ensures r >= 0 ==> s[r] == c
    ensures forall j :: r < j < |s| ==> s[j] != c
    decreases |s|
  {
    if s == [] then -1
    else if s[|s| - 1] == c then |s| - 1
    else LastIndexOf(s[..|s| - 1], c)
  }

  /** An occurrence with none after it is the last one. */
  lemma LastIndexOfAt(s: string, c: char, i: nat)
    requires i < |s| && s[i] == c
    requires forall j :: i < j < |s| ==> s[j] != c
    ensures LastIndexOf(s, c) == i
  {
  }
}
