/**
 * `FileExtractor` (image_analyzer/file_extractor.py): validates the input
 * location, normalises the configured extensions and keeps, from a
 * recursive traversal of the input directory, the regular files whose
 * lower-cased suffix is one of them. The traversal itself (`rglob("*")`
 * and `is_file()`) is an input: a sequence of entries in traversal order.
 */
module FileExtractor {
  import opened Wrappers
  import opened Text
  import opened Paths
  import opened Seqs

  /** One path yielded by the traversal, with the answer `is_file()` gives for it. */
  datatype Entry = Entry(path: string, isFile: bool)

  /** The extractor's two attributes. */
  datatype Extractor = Extractor(inputLocation: string, extensions: seq<string>)

  datatype Error = InputDirectoryNotFound(location: string)

  /** `FileExtractor.__init__`: raises `FileNotFoundError` unless the input
      location is a directory (`isDir` is the answer of `is_dir()`). */
  function New(inputLocation: string, extensions: seq<string>, isDir: bool): (r: Result<Extractor, Error>)
    ensures r.Success? <==> isDir
    ensures r.Success? ==> r.value.inputLocation == inputLocation && r.value.extensions == extensions
    ensures r.Failure? ==> r.error.location == inputLocation
  {
    if isDir then Success(Extractor(inputLocation, extensions))
    else Failure(InputDirectoryNotFound(inputLocation))
  }

  /** `f".{ext.lower().strip('.')}"`: a dot, then the extension lower-cased
      with every leading and trailing dot removed. */
  function NormaliseExtension(ext: string): (r: string)
    ensures |r| >= 1 && r[0] == '.' && Trimmed(r[1..])
    ensures forall k | 0 <= k < |r| :: !IsUpper(r[k])
  {
    LowerIsLower(ext);
    "." + StripDots(Lower(ext))
  }

  /** `valid_extensions`: the set of normalised configured extensions. */
  function ValidExtensions(extensions: seq<string>): set<string>
  {
    set e | e in extensions :: NormaliseExtension(e)
  }

  /** The comprehension's condition: a regular file whose lower-cased suffix
      is a valid extension. */
  predicate Accepts(valid: set<string>, entry: Entry)
  {
    entry.isFile && Lower(Suffix(entry.path)) in valid
  }

  function PathOf(entry: Entry): string
  {
    entry.path
  }

  /** `get_file_paths`: the paths of the accepted entries, in traversal order. */
  function GetFilePaths(x: Extractor, traversal: seq<Entry>): (paths: seq<string>)
    ensures |paths| <= |traversal|
  {
    var valid := ValidExtensions(x.extensions);
    Map(PathOf, Filter(e => Accepts(valid, e), traversal))
  }

  // ---------------------------------------------------------------------
  // Extension normalisation

  /** Normalising `dots + m + dots`, for `m` neither beginning nor ending with
      a dot, gives a dot followed by `m` lower-cased. */
  lemma NormaliseExtensionOf(a: string, m: string, b: string)
    requires AllDots(a) && AllDots(b) && Trimmed(m)
    ensures NormaliseExtension(a + m + b) == "." + Lower(m)
  {
    LowerAppend(a + m, b);
    LowerAppend(a, m);
    assert Lower(a) == a && Lower(b) == b;
    assert Trimmed(Lower(m));
    StripDotsOf(a, Lower(m), b);
  }

  /** Helper for the examples below: both spellings lower-case to `"jpg"`. */
  lemma LowerJpg()
    ensures Lower("jpg") == "jpg" && Lower("JPG") == "jpg"
  {
    LowerIsLower("jpg");
  }

  /** Helper for the examples below: how each spelling splits into dots
      and a middle. */
  lemma JpgSpellings()
    ensures "" + "jpg" + "" == "jpg"
    ensures "." + "JPG" + "" == ".JPG"
    ensures ".." + "jpg" + "." == "..jpg."
    ensures "." + "jpg" == ".jpg"
  {
  }

  /** `"jpg"`, `".JPG"` and `"..jpg."` all normalise to `".jpg"`. */
  lemma NormaliseExtensionExamples(ext: string)
    requires ext == "jpg" || ext == ".JPG" || ext == "..jpg."
    ensures NormaliseExtension(ext) == ".jpg"
  {
    LowerJpg();
    JpgSpellings();
    if ext == "jpg" {
      NormaliseExtensionOf("", "jpg", "");
    } else if ext == ".JPG" {
      NormaliseExtensionOf(".", "JPG", "");
    } else {
      NormaliseExtensionOf("..", "jpg", ".");
    }
  }

  /** Normalising an already normalised extension changes nothing. */
  lemma NormaliseExtensionIdempotent(ext: string)
    ensures NormaliseExtension(NormaliseExtension(ext)) == NormaliseExtension(ext)
  {
    var r := NormaliseExtension(ext);
    var m := r[1..];
    assert r == "." + m + "";
    NormaliseExtensionOf(".", m, "");
    LowerIsLower(m);
    assert Lower(m) == m;
  }

  /** Configured extensions that differ only in case give the same set. */
  lemma ValidExtensionsIgnoreCase(e1: seq<string>, e2: seq<string>)
    requires |e1| == |e2|
    requires forall i | 0 <= i < |e1| :: Lower(e1[i]) == Lower(e2[i])
    ensures ValidExtensions(e1) == ValidExtensions(e2)
  {
    forall x | x in ValidExtensions(e1) ensures x in ValidExtensions(e2) {
      var e :| e in e1 && x == NormaliseExtension(e);
      var i :| 0 <= i < |e1| && e1[i] == e;
      assert NormaliseExtension(e2[i]) == x;
    }
    forall x | x in ValidExtensions(e2) ensures x in ValidExtensions(e1) {
      var e :| e in e2 && x == NormaliseExtension(e);
      var i :| 0 <= i < |e2| && e2[i] == e;
      assert NormaliseExtension(e1[i]) == x;
    }
  }

  // ---------------------------------------------------------------------
  // Filtering the traversal

  /** The result lists traversal paths in traversal order. */
  lemma GetFilePathsInOrder(x: Extractor, traversal: seq<Entry>)
    ensures SubsequenceOf(GetFilePaths(x, traversal), Map(PathOf, traversal))
  {
    var valid := ValidExtensions(x.extensions);
    var accept := e => Accepts(valid, e);
    FilterIsSubsequence(accept, traversal);
    MapSubsequence(PathOf, Filter(accept, traversal), traversal);
  }

  /** Soundness: every returned path is a regular file of the traversal whose
      lower-cased suffix is a valid extension. */
  lemma GetFilePathsSound(x: Extractor, traversal: seq<Entry>)
    ensures forall p | p in GetFilePaths(x, traversal) ::
      Entry(p, true) in traversal && Lower(Suffix(p)) in ValidExtensions(x.extensions)
  {
    var valid := ValidExtensions(x.extensions);
    var accepted := Filter(e => Accepts(valid, e), traversal);
    forall p | p in GetFilePaths(x, traversal)
      ensures Entry(p, true) in traversal && Lower(Suffix(p)) in valid
    {
      var i :| 0 <= i < |accepted| && p == accepted[i].path;
      assert accepted[i] in accepted;
      assert accepted[i] == Entry(p, true);
    }
  }

  /** Completeness: every regular file of the traversal whose lower-cased
      suffix is a valid extension is returned. */
  lemma GetFilePathsComplete(x: Extractor, traversal: seq<Entry>)
    ensures forall e | e in traversal && e.isFile && Lower(Suffix(e.path)) in ValidExtensions(x.extensions) ::
      e.path in GetFilePaths(x, traversal)
  {
    var valid := ValidExtensions(x.extensions);
    var accepted := Filter(e => Accepts(valid, e), traversal);
    forall e | e in traversal && e.isFile && Lower(Suffix(e.path)) in valid
      ensures e.path in GetFilePaths(x, traversal)
    {
      assert e in accepted;
      var i :| 0 <= i < |accepted| && accepted[i] == e;
      assert GetFilePaths(x, traversal)[i] == e.path;
    }
  }

  /** Extension matching ignores the case of the configured extensions. */
  lemma GetFilePathsIgnoresExtensionCase(x1: Extractor, x2: Extractor, traversal: seq<Entry>)
    requires |x1.extensions| == |x2.extensions|
    requires forall i | 0 <= i < |x1.extensions| :: Lower(x1.extensions[i]) == Lower(x2.extensions[i])
    ensures GetFilePaths(x1, traversal) == GetFilePaths(x2, traversal)
  {
    ValidExtensionsIgnoreCase(x1.extensions, x2.extensions);
  }

  /** Extension matching ignores the case of the file's path: an entry is
      accepted exactly when its lower-cased form is. */
  lemma AcceptsIgnoresPathCase(valid: set<string>, entry: Entry)
    ensures Accepts(valid, Entry(Lower(entry.path), entry.isFile)) == Accepts(valid, entry)
  {
    SuffixOfLower(entry.path);
    LowerIsLower(Suffix(entry.path));
  }

  function LowerEntry(entry: Entry): Entry
  {
    Entry(Lower(entry.path), entry.isFile)
  }

  /** Lower-casing every path of the traversal lower-cases the result and
      selects the same entries. */
  lemma GetFilePathsOfLowered(x: Extractor, traversal: seq<Entry>)
    ensures GetFilePaths(x, Map(LowerEntry, traversal)) == Map(Lower, GetFilePaths(x, traversal))
  {
    var valid := ValidExtensions(x.extensions);
    var accept := e => Accepts(valid, e);
    forall e | e in traversal ensures accept(LowerEntry(e)) == accept(e) {
      AcceptsIgnoresPathCase(valid, e);
    }
    FilterMap(accept, accept, LowerEntry, traversal);
    var accepted := Filter(accept, traversal);
    assert Map(PathOf, Map(LowerEntry, accepted)) == Map(Lower, Map(PathOf, accepted));
  }
}
