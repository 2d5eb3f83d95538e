/** How `java.io.File` splits an in-archive entry name on a Unix file system:
    `getParent()` is the whole path before the last separator, `getName()` the part after it,
    both taken after the path is normalised (repeated `/` collapsed, a trailing `/` removed). */
module JavaPaths {
  import opened Base

  /** No two separators in a row. */
  predicate NoDoubleSlash(p: string)
  {
    forall i :: 0 <= i < |p| - 1 ==> !(p[i] == '/' && p[i + 1] == '/')
  }

  /** Collapses every run of `/` into one. */
  function Collapse(p: string): (r: string)
    ensures |r| <= |p|
    ensures NoDoubleSlash(p) ==> r == p
    decreases |p|
  {
    if |p| < 2 then p
    else if p[0] == '/' && p[1] == '/' then Collapse(p[1..])
    else
      assert NoDoubleSlash(p) ==> NoDoubleSlash(p[1..]) by {
        if NoDoubleSlash(p) {
          forall i | 0 <= i < |p[1..]| - 1 ensures !(p[1..][i] == '/' && p[1..][i + 1] == '/') {
            assert p[1..][i] == p[i + 1] && p[1..][i + 1] == p[i + 2];
          }
        }
      }
      [p[0]] + Collapse(p[1..])
  }

  /** The path as `java.io.File` stores it. */
  function Normalize(p: string): string
  {
    var c := Collapse(p);
    if |c| > 1 && c[|c| - 1] == '/' then c[..|c| - 1] else c
  }

  /** The length of the root prefix: 1 for an absolute path, else 0. */
  function PrefixLength(p: string): nat
  {
    if |p| > 0 && p[0] == '/' then 1 else 0
  }

  /** `new File(path).getParent()`. */
  function ParentOf(path: string): JString
  {
    var p := Normalize(path);
    var i := LastIndexOf(p, '/');
    var n := PrefixLength(p);
    if i < n then
      (if n > 0 && |p| > n then Some(p[..n]) else None)
    else Some(p[..i])
  }

  /** `new File(path).getName()`. */
  function NameOf(path: string): string
  {
    var p := Normalize(path);
    var i := LastIndexOf(p, '/');
    var n := PrefixLength(p);
    if i < n then p[n..] else p[i + 1..]
  }

  /** The parent is a proper prefix of the normalised path, and `null` exactly when that path
      has no separator or is the root itself. */
  lemma ParentOfShape(path: string)
    ensures ParentOf(path).Some? ==> ParentOf(path).value < Normalize(path)
    ensures ParentOf(path).None? <==> '/' !in Normalize(path) || Normalize(path) == "/"
  {
  }

  /** The name is the last component: a suffix of the normalised path holding no separator. */
  lemma NameOfShape(path: string)
    ensures '/' !in NameOf(path)
    ensures |NameOf(path)| <= |Normalize(path)|
    ensures NameOf(path) == Normalize(path)[|Normalize(path)| - |NameOf(path)|..]
  {
    var p := Normalize(path);
    var i := LastIndexOf(p, '/');
    var n := PrefixLength(p);
    var r := NameOf(path);
    if i < n {
      assert r == p[n..];
      forall j | 0 <= j < |r| ensures r[j] != '/' { assert r[j] == p[n + j]; }
    } else {
      assert r == p[i + 1..];
      forall j | 0 <= j < |r| ensures r[j] != '/' { assert r[j] == p[i + 1 + j]; }
    }
  }

  /** A plain path component: not empty, no separator. */
  predicate Component(s: string)
  {
    s != [] && '/' !in s
  }

  lemma NormalizeKeeps(p: string)
    requires NoDoubleSlash(p) && (|p| > 0 ==> p[|p| - 1] != '/')
    ensures Normalize(p) == p
  {
  }

  lemma JoinedHasNoDoubleSlash(a: string, b: string)
    requires NoDoubleSlash(a) && Component(b) && (|a| > 0 ==> a[|a| - 1] != '/')
    ensures NoDoubleSlash(a + "/" + b)
  {
    var p := a + "/" + b;
    forall i | 0 <= i < |p| - 1 ensures !(p[i] == '/' && p[i + 1] == '/') {
      if i < |a| - 1 {
        assert p[i] == a[i] && p[i + 1] == a[i + 1];
      } else if i == |a| - 1 {
        assert p[i] == a[i];
      } else if i == |a| {
        assert p[i + 1] == b[0];
      } else {
        assert p[i] == b[i - |a| - 1];
      }
    }
  }

  /** The separator before `b` is the last one of `a + "/" + b`. */
  lemma LastSlashOfJoined(a: string, b: string)
    requires Component(b)
    ensures LastIndexOf(a + "/" + b, '/') == |a|
  {
    var k := |a|;
    var a' := a + "/";
    var s := a' + b;
    assert |a'| == k + 1 && a'[k] == '/';
    forall j | k < j < |s| ensures s[j] != '/' {
      assert s[j] == b[j - k - 1] && b[j - k - 1] in b;
    }
    LastIndexOfAt(s, '/', k);
  }

  /** An entry directly inside a folder: its parent is that folder and its name the file name. */
  lemma {:induction false} TopLevelEntry(dir: string, file: string)
    requires Component(dir) && Component(file)
    ensures ParentOf(dir + "/" + file) == Some(dir)
    ensures NameOf(dir + "/" + file) == file
  {
    var p := dir + "/" + file;
    assert NoDoubleSlash(dir);
    JoinedHasNoDoubleSlash(dir, file);
    assert p[|p| - 1] == file[|file| - 1];
    assert file[|file| - 1] in file;
    NormalizeKeeps(p);
    LastSlashOfJoined(dir, file);
    assert p[0] == dir[0] && dir[0] in dir;
    assert p[..|dir|] == dir;
    assert p[|dir| + 1..] == file;
  }

  /** An entry nested two folders deep: its parent is the whole relative folder path,
      which holds a separator and so equals no plain language code. */
  lemma {:induction false} NestedEntry(dir: string, sub: string, file: string)
    requires Component(dir) && Component(sub) && Component(file)
    ensures ParentOf(dir + "/" + sub + "/" + file) == Some(dir + "/" + sub)
    ensures NameOf(dir + "/" + sub + "/" + file) == file
    ensures forall code: string :: Component(code) ==> ParentOf(dir + "/" + sub + "/" + file) != Some(code)
  {
    var a := dir + "/" + sub;
    var p := a + "/" + file;
    assert NoDoubleSlash(dir);
    JoinedHasNoDoubleSlash(dir, sub);
    assert a[|a| - 1] == sub[|sub| - 1] && sub[|sub| - 1] in sub;
    JoinedHasNoDoubleSlash(a, file);
    assert p[|p| - 1] == file[|file| - 1] && file[|file| - 1] in file;
    NormalizeKeeps(p);
    LastSlashOfJoined(a, file);
    assert p[0] == dir[0] && dir[0] in dir;
    assert p[..|a|] == a;
    assert p[|a| + 1..] == file;
    assert a[|dir|] == '/';
  }

  /** An entry with no folder part has no parent. */
  lemma RootEntry(file: string)
    requires Component(file)
    ensures ParentOf(file) == None
    ensures NameOf(file) == file
  {
    assert file[|file| - 1] in file;
    assert file[0] in file;
    NormalizeKeeps(file);
  }

  /** A folder's own directory entry (`"de-DE/"`) is not inside that folder: it has no parent. */
  lemma {:induction false} DirectoryEntry(dir: string)
    requires Component(dir)
    ensures ParentOf(dir + "/") == None
    ensures NameOf(dir + "/") == dir
  {
    var p := dir + "/";
    assert NoDoubleSlash(dir);
    assert NoDoubleSlash(p) by {
      forall i | 0 <= i < |p| - 1 ensures !(p[i] == '/' && p[i + 1] == '/') {
        assert p[i] == dir[i];
      }
    }
    assert Collapse(p) == p;
    assert Normalize(p) == dir by { assert p[..|p| - 1] == dir; }
    RootEntry(dir);
  }
}
