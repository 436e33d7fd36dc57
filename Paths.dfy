/**
 * The two `pathlib.PurePath` properties the core reads: `name` and
 * `suffix`, over '/'-separated path strings.
 */
module Paths {
  import opened Text

  /** `s.rfind(c)`: the index of the last `c` in `s`, or -1. */
  function LastIndexOf(s: string, c: char): (i: int)
    ensures -1 <= i < |s|
    ensures i >= 0 ==> s[i] == c
    ensures forall k | i < k < |s| :: s[k] != c
  {
    if s == [] then -1
    else if s[|s| - 1] == c then |s| - 1
    else LastIndexOf(s[..|s| - 1], c)
  }

  /** `PurePath.name`: the final component, after the last separator. */
  function Name(path: string): (r: string)
    ensures '/' !in r && |r| <= |path| && r == path[|path| - |r|..]
  {
    path[LastIndexOf(path, '/') + 1..]
  }

  /** `PurePath.suffix`: the final component from its last dot on, provided
      that dot is neither its first nor its last character; otherwise "". */
  function Suffix(path: string): (r: string)
    ensures r == [] || (|r| >= 2 && r[0] == '.' && '.' !in r[1..] && '/' !in r)
    ensures |r| <= |path| && r == path[|path| - |r|..]
  {
    var name := Name(path);
    var i := LastIndexOf(name, '.');
    if 0 < i < |name| - 1 then
      LastComponentFrom(path, name, i);
      name[i..]
    else ""
  }

  /** The final component from its last dot on is a tail of the path that
      starts with that dot and holds no other dot and no separator. */
  lemma LastComponentFrom(path: string, name: string, i: int)
    requires name == Name(path) && i == LastIndexOf(name, '.') && 0 < i < |name| - 1
    ensures |name[i..]| >= 2 && name[i..][0] == '.'
    ensures '.' !in name[i..][1..] && '/' !in name[i..]
    ensures name[i..] == path[|path| - |name[i..]|..]
  {
    var r := name[i..];
    assert forall k | 0 <= k < |r| :: r[k] == name[i + k];
    assert forall k | 0 <= k < |r| - 1 :: r[1..][k] == name[i + 1 + k];
  }

  lemma {:induction false} LastIndexOfAppend(a: string, b: string, c: char)
    requires c !in b
    ensures LastIndexOf(a + b, c) == LastIndexOf(a, c)
    decreases |b|
  {
    if b == [] {
      assert a + b == a;
    } else {
      assert (a + b)[..|a + b| - 1] == a + b[..|b| - 1];
      LastIndexOfAppend(a, b[..|b| - 1], c);
    }
  }

  /** The name is what follows the last separator: a tail of the path with
      no separator that, when the path has one, starts right after it. */
  lemma NameIsLastComponent(path: string)
    ensures '/' !in Name(path)
    ensures |Name(path)| < |path| ==> path[|path| - |Name(path)| - 1] == '/'
    ensures '/' in path ==> |Name(path)| < |path|
  {
    var j := LastIndexOf(path, '/');
    assert Name(path) == path[j + 1..];
    if '/' in path {
      var k :| 0 <= k < |path| && path[k] == '/';
      assert j >= k;
    }
  }

  lemma NameAfterSeparator(dir: string, name: string)
    requires dir == [] || dir[|dir| - 1] == '/'
    requires '/' !in name
    ensures Name(dir + name) == name
  {
    LastIndexOfAppend(dir, name, '/');
    if dir != [] {
      assert LastIndexOf(dir, '/') == |dir| - 1;
    }
    assert (dir + name)[|dir|..] == name;
  }

  lemma LastDot(stem: string, ext: string)
    requires '.' !in ext
    ensures LastIndexOf(stem + "." + ext, '.') == |stem|
  {
    LastIndexOfAppend(stem + ".", ext, '.');
    assert LastIndexOf(stem + ".", '.') == |stem|;
  }

  /** The suffix of `dir/stem.ext` is `.ext` when the extension holds no dot
      and the stem is not empty: the reference reading of `PurePath.suffix`. */
  lemma SuffixOf(dir: string, stem: string, ext: string)
    requires dir == [] || dir[|dir| - 1] == '/'
    requires '/' !in stem && '/' !in ext && '.' !in ext
    requires stem != [] && ext != []
    ensures Suffix(dir + stem + "." + ext) == "." + ext
  {
    var path, name := dir + stem + "." + ext, stem + "." + ext;
    assert Name(path) == name by {
      assert path == dir + name;
      NameAfterSeparator(dir, name);
    }
    assert LastIndexOf(name, '.') == |stem| by {
      LastDot(stem, ext);
    }
    assert name[|stem|..] == "." + ext;
  }

  lemma LowerSlice(s: string, i: nat)
    requires i <= |s|
    ensures Lower(s)[i..] == Lower(s[i..])
  {
  }

  lemma {:induction false} LastIndexOfLower(s: string, c: char)
    requires !IsUpper(c) && ('a' > c || c > 'z')
    ensures LastIndexOf(Lower(s), c) == LastIndexOf(s, c)
    decreases |s|
  {
    if s != [] {
      assert Lower(s)[..|s| - 1] == Lower(s[..|s| - 1]);
      LastIndexOfLower(s[..|s| - 1], c);
    }
  }

  lemma NameOfLower(path: string)
    ensures Name(Lower(path)) == Lower(Name(path))
  {
    LastIndexOfLower(path, '/');
    LowerSlice(path, LastIndexOf(path, '/') + 1);
  }

  /** Lower-casing a path lower-cases its suffix and nothing else about it:
      the suffix is found at the same place. */
  lemma SuffixOfLower(path: string)
    ensures Suffix(Lower(path)) == Lower(Suffix(path))
  {
    var name, lname := Name(path), Name(Lower(path));
    assert lname == Lower(name) by {
      NameOfLower(path);
    }
    var j := LastIndexOf(name, '.');
    assert LastIndexOf(lname, '.') == j by {
      LastIndexOfLower(name, '.');
    }
    assert |lname| == |name|;
    if 0 < j < |name| - 1 {
      assert Suffix(path) == name[j..];
      assert Suffix(Lower(path)) == lname[j..];
      LowerSlice(name, j);
    } else {
      assert Suffix(path) == [];
      assert Suffix(Lower(path)) == [];
    }
  }
}
