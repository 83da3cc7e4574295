/**
 * The two ways the module names the AVIF sibling of an image variation: the
 * deletion-side `getAvifFilename` (a `str_replace` on the full filename) and the
 * creation-side path built in the save-ready closures (pagefiles directory plus
 * `pathinfo(...)['filename']` plus ".avif").
 */
module AvifNames {
  import opened Wrappers
  import opened PhpStrings

  const AVIF_EXT := ".avif"

  /**
   * A Pageimage: a file `basename` in its page's files directory `dir` (which
   * `pagefiles->path()` returns with a trailing '/'), its extension `ext`, and, for
   * a variation, the original image it was resized from.
   */
  datatype Pageimage = Pageimage(dir: string, basename: string, ext: string, original: Option<Pageimage>)

  /** `$pageimage->filename`: the full path of the file. */
  function Filename(img: Pageimage): string
  {
    img.dir + img.basename
  }

  /** `getAvifFilename`: every ".ext" in the full filename becomes ".avif". */
  function GetAvifFilename(img: Pageimage): string
  {
    StrReplace(Filename(img), "." + img.ext, AVIF_EXT)
  }

  /** A filename in which ".ext" does not occur is its own "sibling". */
  lemma GetAvifFilenameWithoutExt(img: Pageimage)
    requires forall i: nat :: !OccursAt(Filename(img), "." + img.ext, i)
    ensures GetAvifFilename(img) == Filename(img)
  {
    StrReplaceNoMatch(Filename(img), "." + img.ext, AVIF_EXT);
  }

  /** When ".ext" occurs only as the suffix, exactly that suffix becomes ".avif". */
  lemma GetAvifFilenameOfSuffix(img: Pageimage, stem: string)
    requires Filename(img) == stem + "." + img.ext
    requires forall i: nat :: OccursAt(Filename(img), "." + img.ext, i) ==> i == |stem|
    ensures GetAvifFilename(img) == stem + AVIF_EXT
  {
    assert stem + "." + img.ext == stem + ("." + img.ext);
    StrReplaceSuffixOnly(stem, "." + img.ext, AVIF_EXT);
  }

  /**
   * The sibling path the save-ready closures write for the file `saveFilename`
   * while the captured pagefiles directory is `dir`: it lies directly in `dir`,
   * ends in ".avif", and its name is the basename of `saveFilename` cut before
   * that basename's last dot (the whole basename when it has no dot).
   */
  function CreationSibling(dir: string, saveFilename: string): string
  {
    dir + PathinfoFilename(saveFilename) + AVIF_EXT
  }

  /** The parts of `dir + name + ext` can be read back off the joined string. */
  lemma JoinParts(dir: string, name: string, ext: string)
    ensures var r := dir + name + ext;
      && |r| == |dir| + |name| + |ext|
      && r[..|dir|] == dir && r[|dir|..|r| - |ext|] == name && r[|r| - |ext|..] == ext
      && r[|dir|..] == name + ext
  {
    var r := dir + name + ext;
    assert r[..|dir|] == dir;
    assert r[|dir|..] == name + ext;
    assert r[|dir|..|r| - |ext|] == name;
    assert r[|r| - |ext|..] == ext;
  }

  /** A created sibling lies directly in `dir` and ends in ".avif". */
  lemma CreationSiblingShape(dir: string, saveFilename: string)
    ensures var r := CreationSibling(dir, saveFilename);
      && |dir| + |AVIF_EXT| <= |r| && r[..|dir|] == dir && r[|r| - |AVIF_EXT|..] == AVIF_EXT
      && '/' !in r[|dir|..]
  {
    var name := PathinfoFilename(saveFilename);
    JoinParts(dir, name, AVIF_EXT);
    assert '/' !in name && '/' !in AVIF_EXT;
  }

  /**
   * Between the directory and ".avif" a created sibling carries the basename of
   * the save filename cut before that basename's last dot (all of it when it has no dot).
   */
  lemma CreationSiblingName(dir: string, saveFilename: string)
    ensures var r := CreationSibling(dir, saveFilename);
      var b := Basename(saveFilename);
      var cut := |r| - |AVIF_EXT| - |dir|;
      && 0 <= cut <= |b| && r[|dir|..|r| - |AVIF_EXT|] == b[..cut]
      && ('.' !in b ==> cut == |b|)
      && ('.' in b ==> cut < |b| && b[cut] == '.' && '.' !in b[cut + 1..])
  {
    PathinfoFilenameCut(saveFilename);
    JoinParts(dir, PathinfoFilename(saveFilename), AVIF_EXT);
  }

  /**
   * Deletion finds what creation wrote: for a variation `stem.ext` in a directory
   * ending in '/', whose ".ext" occurs in its full filename only as the suffix,
   * `getAvifFilename` and the creation rule give the same path, whatever directory
   * the engine's save filename lies in, as long as it has the variation's basename.
   */
  lemma RulesAgree(v: Pageimage, stem: string, saveFilename: string)
    requires v.dir == [] || v.dir[|v.dir| - 1] == '/'
    requires v.basename == stem + "." + v.ext
    requires '/' !in v.basename && '.' !in v.ext
    requires forall i: nat :: OccursAt(Filename(v), "." + v.ext, i) ==> i == |v.dir| + |stem|
    requires Basename(saveFilename) == v.basename
    ensures GetAvifFilename(v) == CreationSibling(v.dir, saveFilename)
  {
    assert Filename(v) == (v.dir + stem) + "." + v.ext;
    GetAvifFilenameOfSuffix(v, v.dir + stem);
    PathinfoFilenameOfStem(saveFilename, stem, v.ext);
    assert CreationSibling(v.dir, saveFilename) == v.dir + stem + AVIF_EXT;
  }

  /** Different strings stay different when the same suffix is appended. */
  lemma AppendDistinct(a: string, b: string, t: string)
    requires a != b
    ensures a + t != b + t
  {
    if |a| == |b| {
      assert (a + t)[..|a|] == a && (b + t)[..|b|] == b;
    } else {
      assert |a + t| != |b + t|;
    }
  }

  /** For one save filename, siblings created through two different directories are two different files. */
  lemma CreationSiblingsDistinct(d1: string, d2: string, saveFilename: string)
    requires d1 != d2
    ensures CreationSibling(d1, saveFilename) != CreationSibling(d2, saveFilename)
  {
    var name := PathinfoFilename(saveFilename);
    AppendDistinct(d1, d2, name);
    AppendDistinct(d1 + name, d2 + name, AVIF_EXT);
  }
}
