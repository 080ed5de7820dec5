/**
 * util/OSMDatasetStore: the older store. It keeps no map: it lists names by
 * stripping the extension with a regular expression, and builds a dataset's
 * path from the caller's name, with every '/' removed, plus the extension.
 *
 * It shares the extension, the glob and the path shape with io/OSMDatasetStore.
 */
module LegacyDatasetStore {
  import opened Common
  import DatasetStore

  /** What `.` matches in a java.util.regex pattern without DOTALL: anything but a line terminator. */
  predicate DotMatches(c: char)
  {
    c != '\n' && c != '\r' && c != '\U{85}' && c != '\U{2028}' && c != '\U{2029}'
  }

  /** w, as long as the extension, matches the regular expression ".osm.pbf" (both dots are wildcards). */
  predicate PatternMatches(w: string)
    requires |w| == |DatasetStore.Extension|
  {
    forall k :: 0 <= k < |DatasetStore.Extension| ==>
      if DatasetStore.Extension[k] == '.' then DotMatches(w[k]) else w[k] == DatasetStore.Extension[k]
  }

  /** replaceAll(".osm.pbf", ""): drops every match, found left to right, without overlap. */
  function StripPattern(s: string): (r: string)
    ensures |r| <= |s|
    decreases |s|
  {
    if |s| < |DatasetStore.Extension| then s
    else if PatternMatches(s[..|DatasetStore.Extension|]) then StripPattern(s[|DatasetStore.Extension|..])
    else [s[0]] + StripPattern(s[1..])
  }

  /** The window of x at i, as long as the extension, matches the pattern. */
  predicate MatchAt(x: string, i: int)
  {
    0 <= i && i + |DatasetStore.Extension| <= |x| && PatternMatches(x[i..i + |DatasetStore.Extension|])
  }

  /** No window of x matches the pattern. */
  ghost predicate NoPatternIn(x: string)
  {
    forall i :: !MatchAt(x, i)
  }

  /**
   * A match never straddles a base name and the extension appended to it, so
   * replaceAll gives the base back whenever the base holds no match itself.
   */
  lemma {:induction false} StripAppendedExtension(x: string)
    requires NoPatternIn(x)
    ensures StripPattern(x + DatasetStore.Extension) == x
    decreases |x|
  {
    var ext := DatasetStore.Extension;
    var s := x + ext;
    if |x| == 0 {
      assert s == ext && s[..|DatasetStore.Extension|] == ext && s[|DatasetStore.Extension|..] == [];
      assert PatternMatches(ext);
    } else {
      NoMatchAtStart(x);
      NoPatternInTail(x);
      StripAppendedExtension(x[1..]);
      assert s[1..] == x[1..] + ext;
      assert x == [x[0]] + x[1..];
    }
  }

  /** Appending the extension to a non-empty text without a match creates none at its start. */
  lemma NoMatchAtStart(x: string)
    requires |x| > 0 && NoPatternIn(x)
    ensures !PatternMatches((x + DatasetStore.Extension)[..|DatasetStore.Extension|])
  {
    var ext := DatasetStore.Extension;
    var s := x + ext;
    if |x| >= |DatasetStore.Extension| {
      assert !MatchAt(x, 0);
      assert s[..|DatasetStore.Extension|] == x[0..|DatasetStore.Extension|];
    } else {
      var m := |x|;
      assert s[m] == '.';
      if m == 4 {
        assert s[5] == 'o';
        assert !(s[..|DatasetStore.Extension|][5] == ext[5]);
      } else {
        assert !(s[..|DatasetStore.Extension|][m] == ext[m]);
      }
    }
  }

  /** A text without a match keeps none without its first character. */
  lemma NoPatternInTail(x: string)
    requires |x| > 0 && NoPatternIn(x)
    ensures NoPatternIn(x[1..])
  {
    forall i ensures !MatchAt(x[1..], i) {
      assert !MatchAt(x, i + 1);
      if 0 <= i && i + |DatasetStore.Extension| <= |x[1..]| {
        assert x[1..][i..i + |DatasetStore.Extension|] == x[i + 1..i + 1 + |DatasetStore.Extension|];
      }
    }
  }

  /** getDatasetName, as written. */
  function DatasetName(fileName: string): string
  {
    StripPattern(fileName)
  }

  /** The entries the directory stream yields for the glob, in listing order. */
  function Matching(listing: seq<string>): (files: seq<string>)
    ensures forall f :: f in files ==> f in listing && DatasetStore.MatchesGlob(f)
    decreases |listing|
  {
    if listing == [] then []
    else
      var f := listing[|listing| - 1];
      Matching(listing[..|listing| - 1]) + if DatasetStore.MatchesGlob(f) then [f] else []
  }

  /**
   * The stream is a filter: the entries of a longer listing are those of its
   * first part followed by those of the rest, so entries keep their listing
   * order and none matching is lost.
   */
  lemma {:induction false} MatchingAppend(a: seq<string>, b: seq<string>)
    ensures Matching(a + b) == Matching(a) + Matching(b)
    decreases |b|
  {
    if b == [] {
      assert a + b == a;
    } else {
      var init, f := b[..|b| - 1], b[|b| - 1];
      assert (a + b)[..|a + b| - 1] == a + init;
      assert (a + b)[|a + b| - 1] == f;
      MatchingAppend(a, init);
      AppendAssociates(Matching(a), Matching(init), if DatasetStore.MatchesGlob(f) then [f] else []);
    }
  }

  /** String.replaceAll("/", ""). */
  function RemoveSlashes(s: string): (r: string)
    ensures '/' !in r
    ensures '/' !in s ==> r == s
  {
    if s == [] then []
    else if s[0] == '/' then RemoveSlashes(s[1..])
    else [s[0]] + RemoveSlashes(s[1..])
  }

  /**
   * The file name getPathForDataset appends to the directory: never a '/',
   * always the extension, so it names an entry directly inside the directory.
   */
  function FileComponent(datasetName: string): (c: string)
    ensures '/' !in c && DatasetStore.MatchesGlob(c)
    ensures '/' !in datasetName ==> c == datasetName + DatasetStore.Extension
  {
    var c := RemoveSlashes(datasetName) + DatasetStore.Extension;
    assert c[|c| - |DatasetStore.Extension|..] == DatasetStore.Extension;
    c
  }

  class Store {
    const directory: string

    /** The constructor only remembers the directory; nothing is listed yet. */
    constructor (directory: string)
      ensures this.directory == directory
    {
      this.directory := directory;
    }

    /**
     * getDatasetList: one name per matching entry, in listing order, duplicates
     * kept; an IOException when the directory stream cannot be opened.
     */
    method GetDatasetList(listing: Option<seq<string>>) returns (r: Result<seq<string>, IOException>)
      ensures r.Failure? <==> listing.None?
      ensures r.Success? ==>
        && |r.value| == |Matching(listing.value)|
        && forall k :: 0 <= k < |r.value| ==> r.value[k] == DatasetName(Matching(listing.value)[k])
    {
      if listing.None? {
        return Failure(IOException("cannot open directory " + directory));
      }
      var files := listing.value;
      var names: seq<string> := [];
      for i := 0 to |files|
        invariant |names| == |Matching(files[..i])|
        invariant forall k :: 0 <= k < |names| ==> names[k] == DatasetName(Matching(files[..i])[k])
      {
        assert files[..i + 1][..i] == files[..i];
        if DatasetStore.MatchesGlob(files[i]) {
          names := names + [DatasetName(files[i])];
        }
      }
      assert files[..|files|] == files;
      return Success(names);
    }

    /** getPathForDataset: the built path, an IOException unless it is a regular file. */
    function GetPathForDataset(datasetName: string, regularFiles: set<string>): (r: Result<string, IOException>)
      ensures r.Success? <==> DatasetStore.PathOf(directory, FileComponent(datasetName)) in regularFiles
      ensures r.Success? ==> r.value == DatasetStore.PathOf(directory, FileComponent(datasetName))
    {
      var path := DatasetStore.PathOf(directory, FileComponent(datasetName));
      if path in regularFiles then Success(path)
      else Failure(IOException("OSM dataset with the name " + datasetName + " does not exist"))
    }
  }

  /**
   * Whatever the caller's name, the path built for it is the directory
   * followed by exactly one component, which ends in the extension: no '/'
   * of the name survives, so no name climbs out of the directory.
   */
  lemma PathStaysInDirectory(directory: string, datasetName: string)
    ensures var p := DatasetStore.PathOf(directory, FileComponent(datasetName));
      && Components(p) == Components(directory) + [FileComponent(datasetName)]
      && (IsAbsolute(p) <==> IsAbsolute(directory))
      && EndsWith(p, DatasetStore.Extension)
  {
    ComponentInDirectory(directory, FileComponent(datasetName));
  }

  lemma ComponentInDirectory(directory: string, c: string)
    requires '/' !in c && EndsWith(c, DatasetStore.Extension)
    ensures var p := DatasetStore.PathOf(directory, c);
      && Components(p) == Components(directory) + [c]
      && (IsAbsolute(p) <==> IsAbsolute(directory))
      && EndsWith(p, DatasetStore.Extension)
  {
    SingleComponent(c);
    var cs := Components(directory) + [c];
    assert DatasetStore.PathOf(directory, c) == PathString(IsAbsolute(directory), cs);
    ParsePathString(IsAbsolute(directory), cs);
    PathStringEndsWith(IsAbsolute(directory), Components(directory), c, DatasetStore.Extension);
  }

  /** A path whose last component ends with a suffix ends with it too. */
  lemma PathStringEndsWith(absolute: bool, xs: seq<string>, c: string, suffix: string)
    requires EndsWith(c, suffix)
    ensures EndsWith(PathString(absolute, xs + [c]), suffix)
  {
    var lead := if absolute then "/" else "";
    var prefix := if xs == [] then "" else Join("/", xs) + "/";
    JoinSnoc("/", xs, c);
    AppendAssociates(lead, prefix, c);
    EndsWithExtends(lead + prefix, c, suffix);
  }

  /** A non-empty name without '/' parses as that one component. */
  lemma SingleComponent(c: string)
    requires c != "" && '/' !in c
    ensures Components(c) == [c]
  {
    SplitPiece(c, '/', "");
    NonEmptyKeeps([c]);
  }

  lemma EndsWithExtends(prefix: string, s: string, suffix: string)
    requires EndsWith(s, suffix)
    ensures EndsWith(prefix + s, suffix)
  {
    assert (prefix + s)[|prefix + s| - |suffix|..] == s[|s| - |suffix|..];
  }

  /**
   * As written, a listed name need not lead back to its file: the '-' in
   * "x-osm-pbf" matches the pattern's wildcards, so the file
   * "x-osm-pbf.osm.pbf" is listed as "x", and "x" resolves to "x.osm.pbf".
   */
  lemma ListedNameResolvesElsewhere(directory: string)
    ensures var f := "x-osm-pbf.osm.pbf";
      && DatasetStore.MatchesGlob(f)
      && DatasetName(f) == "x"
      && DatasetStore.PathOf(directory, FileComponent(DatasetName(f))) != DatasetStore.PathOf(directory, f)
  {
    var f := "x-osm-pbf.osm.pbf";
    assert f == "x-osm-pbf" + DatasetStore.Extension;
    assert f[|f| - |DatasetStore.Extension|..] == DatasetStore.Extension;
    SampleName();
    var c := FileComponent("x");
    assert '/' !in "x";
    assert |c| == 9;
    assert EndsWith(f, DatasetStore.Extension) && '/' !in f;
    ComponentInDirectory(directory, c);
    ComponentInDirectory(directory, f);
    assert (Components(directory) + [c])[|Components(directory)|] == c;
    assert (Components(directory) + [f])[|Components(directory)|] == f;
  }

  /** The three steps of replaceAll on the sample file name. */
  lemma SampleName()
    ensures StripPattern("x-osm-pbf.osm.pbf") == "x"
  {
    var ext := DatasetStore.Extension;
    var g := "-osm-pbf";
    var f := "x" + g + ext;
    assert f == "x-osm-pbf.osm.pbf";
    assert PatternMatches(ext[..|DatasetStore.Extension|]) by {
      assert ext[..|DatasetStore.Extension|] == ext;
    }
    StripLeadingMatch(ext);
    assert ext[|DatasetStore.Extension|..] == [];
    assert (g + ext)[..|DatasetStore.Extension|] == g;
    assert PatternMatches(g);
    StripLeadingMatch(g + ext);
    assert (g + ext)[|DatasetStore.Extension|..] == ext;
    assert f[..|DatasetStore.Extension|][1] == '-' != ext[1];
    StripLeadingMismatch(f);
    assert f[1..] == g + ext;
  }

  lemma StripLeadingMatch(s: string)
    requires |s| >= |DatasetStore.Extension| && PatternMatches(s[..|DatasetStore.Extension|])
    ensures StripPattern(s) == StripPattern(s[|DatasetStore.Extension|..])
  {
  }

  lemma StripLeadingMismatch(s: string)
    requires |s| >= |DatasetStore.Extension| && !PatternMatches(s[..|DatasetStore.Extension|])
    ensures StripPattern(s) == [s[0]] + StripPattern(s[1..])
  {
  }

  /** The intended getDatasetName: cut the extension off the end, once. */
  function DatasetNameFixed(fileName: string): (name: string)
    ensures |name| <= |fileName|
  {
    if DatasetStore.MatchesGlob(fileName) then fileName[..|fileName| - |DatasetStore.Extension|] else fileName
  }

  /** The two agree on every file whose base name holds no match. */
  lemma FixedAgreesOnPlainNames(x: string)
    requires NoPatternIn(x)
    ensures DatasetNameFixed(x + DatasetStore.Extension) == DatasetName(x + DatasetStore.Extension) == x
  {
    StripAppendedExtension(x);
    var f := x + DatasetStore.Extension;
    assert f[|f| - |DatasetStore.Extension|..] == DatasetStore.Extension;
    assert f[..|f| - |DatasetStore.Extension|] == x;
  }

  /** With the fixed name, every listed file resolves to itself. */
  lemma FixedNameResolves(directory: string, fileName: string)
    requires DatasetStore.MatchesGlob(fileName) && '/' !in fileName
    ensures DatasetStore.PathOf(directory, FileComponent(DatasetNameFixed(fileName))) == DatasetStore.PathOf(directory, fileName)
  {
    var name := DatasetNameFixed(fileName);
    assert '/' !in name by {
      forall i | 0 <= i < |name| ensures name[i] != '/' {
        assert name[i] == fileName[i];
      }
    }
    assert name + DatasetStore.Extension == fileName;
  }
}
