/**
 * io/OSMDatasetStore: the map from sanitised dataset names to the files found
 * in the store directory. A lookup only ever hands out a path the scan stored,
 * which is what keeps a caller's dataset name from reaching outside the store.
 *
 * The directory listing is given as the sequence of entry names the directory
 * stream would iterate over; Path values are their Unix path strings.
 */
module DatasetStore {
  import opened Common

  /** OSMDatasetStore.fileNameExtension. */
  const Extension: string := ".osm.pbf"

  /** The directory stream's glob `*.osm.pbf`, applied to an entry name. */
  predicate MatchesGlob(fileName: string)
  {
    EndsWith(fileName, Extension)
  }

  /** The characters the class `[a-zA-Z0-9\.\-_]` admits. */
  predicate Allowed(c: char)
  {
    || 'a' <= c <= 'z'
    || 'A' <= c <= 'Z'
    || '0' <= c <= '9'
    || c == '.' || c == '-' || c == '_'
  }

  predicate AllAllowed(s: string)
  {
    forall i :: 0 <= i < |s| ==> Allowed(s[i])
  }

  /** `target` occurs in s starting at index i. */
  ghost predicate OccursAt(s: string, target: string, i: int)
  {
    0 <= i && i + |target| <= |s| && s[i..i + |target|] == target
  }

  /** No occurrence of `target` anywhere in s. */
  ghost predicate Free(s: string, target: string)
  {
    forall i :: !OccursAt(s, target, i)
  }

  /** String.replace(target, ""): drops every occurrence, scanning left to right without overlap. */
  function RemoveAll(s: string, target: string): (r: string)
    requires |target| > 0
    ensures |r| <= |s|
    decreases |s|
  {
    if |s| < |target| then s
    else if s[..|target|] == target then RemoveAll(s[|target|..], target)
    else [s[0]] + RemoveAll(s[1..], target)
  }

  /** replaceAll("[^a-zA-Z0-9\\.\\-_]", ""): drops every character outside the class. */
  function KeepAllowed(s: string): (r: string)
    ensures AllAllowed(r)
    ensures AllAllowed(s) ==> r == s
    ensures |r| <= |s|
  {
    if s == [] then []
    else if Allowed(s[0]) then [s[0]] + KeepAllowed(s[1..])
    else KeepAllowed(s[1..])
  }

  /** The whitelist judges one character at a time: a character is kept exactly when it is allowed. */
  lemma KeepAllowedChar(c: char)
    ensures KeepAllowed([c]) == if Allowed(c) then [c] else []
  {
    assert [c][1..] == [];
  }

  /** The whitelist keeps the allowed characters of each part, in order: "a!b" becomes "ab". */
  lemma {:induction false} KeepAllowedAppend(a: string, b: string)
    ensures KeepAllowed(a + b) == KeepAllowed(a) + KeepAllowed(b)
    decreases |a|
  {
    if a != [] {
      assert (a + b)[0] == a[0];
      assert (a + b)[1..] == a[1..] + b;
      KeepAllowedAppend(a[1..], b);
    } else {
      assert a + b == b;
    }
  }

  /** getDatasetName: the last path component, extension occurrences removed, then whitelisted. */
  function DatasetName(fileName: string): (name: string)
    ensures AllAllowed(name)
    ensures '/' !in name && ',' !in name
  {
    KeepAllowed(RemoveAll(fileName, Extension))
  }

  /**
   * An extension appended to a text that holds no occurrence of it is removed
   * and nothing else is: ".osm.pbf" does not overlap itself, so no occurrence
   * can start inside the text.
   */
  lemma {:induction false} RemoveAppendedExtension(x: string)
    requires Free(x, Extension)
    ensures RemoveAll(x + Extension, Extension) == x
    decreases |x|
  {
    var s := x + Extension;
    if |x| == 0 {
      assert s[..8] == Extension && s[8..] == [];
    } else {
      NoOccurrenceAtStart(x);
      assert RemoveAll(s, Extension) == [s[0]] + RemoveAll(s[1..], Extension);
      FreeTail(x);
      RemoveAppendedExtension(x[1..]);
      assert s[1..] == x[1..] + Extension;
      assert x == [x[0]] + x[1..];
    }
  }

  /** Appending the extension to a non-empty free text creates no occurrence at its start. */
  lemma NoOccurrenceAtStart(x: string)
    requires |x| > 0 && Free(x, Extension)
    ensures (x + Extension)[..8] != Extension
  {
    var s := x + Extension;
    if |x| >= 8 {
      assert !OccursAt(x, Extension, 0);
      assert s[..8] == x[0..0 + 8];
    } else if |x| == 4 {
      assert s[..8][5] == 'o' != Extension[5];
    } else {
      assert s[..8][|x|] == '.' != Extension[|x|];
    }
  }

  /** A text free of the extension stays free without its first character. */
  lemma FreeTail(x: string)
    requires |x| > 0 && Free(x, Extension)
    ensures Free(x[1..], Extension)
  {
    forall i ensures !OccursAt(x[1..], Extension, i) {
      if 0 <= i && i + 8 <= |x[1..]| {
        assert !OccursAt(x, Extension, i + 1);
        assert x[1..][i..i + 8] == x[i + 1..i + 1 + 8];
      }
    }
  }

  /** A file `<name>.osm.pbf` whose name is already clean is listed under exactly that name. */
  lemma PlainFileName(base: string)
    requires AllAllowed(base) && Free(base, Extension)
    ensures MatchesGlob(base + Extension)
    ensures DatasetName(base + Extension) == base
  {
    RemoveAppendedExtension(base);
    assert (base + Extension)[|base + Extension| - 8..] == Extension;
  }

  /** The file nothing but the extension names is listed under the empty name. */
  lemma BareExtensionHasEmptyName()
    ensures MatchesGlob(Extension) && DatasetName(Extension) == ""
  {
    assert Extension[..8] == Extension && Extension[8..] == [];
  }

  /**
   * The path the directory stream yields for an entry of `directory`, as a
   * string: Paths.get(directory, fileName), which for a file name without
   * '/' is also Paths.get(directory).resolve(fileName). The parser drops
   * empty pieces, so a trailing '/' on the directory is not doubled, and the
   * empty directory leaves the file name relative.
   */
  function PathOf(directory: string, fileName: string): string
  {
    PathString(IsAbsolute(directory), Components(directory) + Components(fileName))
  }

  /** The map scanDirectory builds from the listing: later entries overwrite earlier ones. */
  function Scanned(directory: string, listing: seq<string>): map<string, string>
    decreases |listing|
  {
    if listing == [] then map[]
    else
      var m := Scanned(directory, listing[..|listing| - 1]);
      var f := listing[|listing| - 1];
      if MatchesGlob(f) then m[DatasetName(f) := PathOf(directory, f)] else m
  }

  /** The entry at i is the last one of the listing that is filed under `name`. */
  ghost predicate LastFiledAt(listing: seq<string>, i: int, name: string)
  {
    && 0 <= i < |listing|
    && MatchesGlob(listing[i]) && DatasetName(listing[i]) == name
    && forall j :: i < j < |listing| && MatchesGlob(listing[j]) ==> DatasetName(listing[j]) != name
  }

  /**
   * After a scan the keys are exactly the names of the matching entries, and
   * each key maps to the path of the last matching entry filed under it.
   */
  lemma ScanFilesLastEntry(directory: string, listing: seq<string>)
    ensures forall name :: name in Scanned(directory, listing) <==>
      exists i :: 0 <= i < |listing| && MatchesGlob(listing[i]) && DatasetName(listing[i]) == name
    ensures forall i, name :: LastFiledAt(listing, i, name) ==>
      name in Scanned(directory, listing) && Scanned(directory, listing)[name] == PathOf(directory, listing[i])
  {
    ScanKeys(directory, listing);
    ScanKeepsLast(directory, listing);
  }

  /** The keys of a scan are exactly the names of the matching entries. */
  lemma {:induction false} ScanKeys(directory: string, listing: seq<string>)
    ensures forall name :: name in Scanned(directory, listing) <==>
      exists i :: 0 <= i < |listing| && MatchesGlob(listing[i]) && DatasetName(listing[i]) == name
    decreases |listing|
  {
    if listing != [] {
      var init := listing[..|listing| - 1];
      var f := listing[|listing| - 1];
      ScanKeys(directory, init);
      forall name | name in Scanned(directory, listing)
        ensures exists i :: 0 <= i < |listing| && MatchesGlob(listing[i]) && DatasetName(listing[i]) == name
      {
        if MatchesGlob(f) && name == DatasetName(f) {
          assert listing[|listing| - 1] == f;
        } else {
          assert name in Scanned(directory, init);
          var i :| 0 <= i < |init| && MatchesGlob(init[i]) && DatasetName(init[i]) == name;
          assert listing[i] == init[i];
        }
      }
      forall name | exists i :: 0 <= i < |listing| && MatchesGlob(listing[i]) && DatasetName(listing[i]) == name
        ensures name in Scanned(directory, listing)
      {
        var i :| 0 <= i < |listing| && MatchesGlob(listing[i]) && DatasetName(listing[i]) == name;
        if i < |init| {
          assert init[i] == listing[i];
        }
      }
    }
  }

  /** A key maps to the path of the last matching entry filed under it. */
  lemma {:induction false} ScanKeepsLast(directory: string, listing: seq<string>)
    ensures forall i, name :: LastFiledAt(listing, i, name) ==>
      name in Scanned(directory, listing) && Scanned(directory, listing)[name] == PathOf(directory, listing[i])
    decreases |listing|
  {
    if listing != [] {
      var init := listing[..|listing| - 1];
      ScanKeepsLast(directory, init);
      forall i, name | LastFiledAt(listing, i, name)
        ensures name in Scanned(directory, listing) && Scanned(directory, listing)[name] == PathOf(directory, listing[i])
      {
        if i < |init| {
          assert LastFiledAt(init, i, name) by {
            forall j | i < j < |init| && MatchesGlob(init[j]) ensures DatasetName(init[j]) != name {
              assert init[j] == listing[j];
            }
          }
        }
      }
    }
  }

  /** Every value of the scanned map is the path of a matching listed entry. */
  lemma {:induction false} ScannedPathsAreListed(directory: string, listing: seq<string>, name: string)
    requires name in Scanned(directory, listing)
    ensures exists i ::
              && 0 <= i < |listing| && MatchesGlob(listing[i])
              && Scanned(directory, listing)[name] == PathOf(directory, listing[i])
    decreases |listing|
  {
    var init := listing[..|listing| - 1];
    var f := listing[|listing| - 1];
    if MatchesGlob(f) && name == DatasetName(f) {
      assert Scanned(directory, listing)[name] == PathOf(directory, listing[|listing| - 1]);
    } else {
      ScannedPathsAreListed(directory, init, name);
      var i :| 0 <= i < |init| && MatchesGlob(init[i]) && Scanned(directory, init)[name] == PathOf(directory, init[i]);
      assert listing[i] == init[i];
    }
  }

  /** getPathForDataset on a map: the stored path, if stored and still on disk. */
  function Lookup(datasetMap: map<string, string>, datasetName: string, existing: set<string>): Result<string, IOException>
  {
    if datasetName in datasetMap && datasetMap[datasetName] in existing then Success(datasetMap[datasetName])
    else Failure(IOException("OSM dataset with the name " + datasetName + " does not exist"))
  }

  /**
   * A lookup in a scanned store either fails or returns the path of a listed
   * `.osm.pbf` entry of the store directory that still exists; a name holding
   * a character outside the whitelist (a '/' in particular) always fails.
   */
  lemma LookupOnlyListedFiles(directory: string, listing: seq<string>, datasetName: string, existing: set<string>)
    ensures var r := Lookup(Scanned(directory, listing), datasetName, existing);
      && (r.Success? ==>
            && r.value in existing
            && exists i :: 0 <= i < |listing| && MatchesGlob(listing[i]) && r.value == PathOf(directory, listing[i]))
      && (!AllAllowed(datasetName) ==> r.Failure?)
  {
    var m := Scanned(directory, listing);
    ScanFilesLastEntry(directory, listing);
    if datasetName in m {
      ScannedPathsAreListed(directory, listing, datasetName);
    }
  }

  /** A cleanly named listed file that still exists is found under its own name. */
  lemma LookupFindsPlainFile(directory: string, listing: seq<string>, i: int, base: string, existing: set<string>)
    requires 0 <= i < |listing| && listing[i] == base + Extension
    requires AllAllowed(base) && Free(base, Extension)
    requires LastFiledAt(listing, i, base)
    requires PathOf(directory, listing[i]) in existing
    ensures Lookup(Scanned(directory, listing), base, existing) == Success(PathOf(directory, base + Extension))
  {
    ScanFilesLastEntry(directory, listing);
  }

  class Store {
    const directory: string
    var datasetMap: map<string, string>

    /** The constructor scans at once, so the store is populated from the start. */
    constructor (directory: string, listing: seq<string>)
      ensures this.directory == directory
      ensures datasetMap == Scanned(directory, listing)
    {
      this.directory := directory;
      datasetMap := map[];
      new;
      var scanned := ScanDirectory(Some(listing));
    }

    /**
     * scanDirectory: clears the map, then files every matching entry; when the
     * directory stream cannot be opened (listing None) the IOException leaves
     * the map cleared.
     */
    method ScanDirectory(listing: Option<seq<string>>) returns (ok: bool)
      modifies this`datasetMap
      ensures ok == listing.Some?
      ensures datasetMap == if ok then Scanned(directory, listing.value) else map[]
    {
      datasetMap := map[];
      if listing.None? {
        return false;
      }
      var files := listing.value;
      for i := 0 to |files|
        invariant datasetMap == Scanned(directory, files[..i])
      {
        assert files[..i + 1][..i] == files[..i];
        if MatchesGlob(files[i]) {
          datasetMap := datasetMap[DatasetName(files[i]) := PathOf(directory, files[i])];
        }
      }
      assert files[..|files|] == files;
      return true;
    }

    /** getDatasetList: the key set copied into a list, in the map's own (unspecified) order. */
    method GetDatasetList() returns (names: seq<string>)
      ensures forall n :: n in names <==> n in datasetMap
      ensures forall i, j :: 0 <= i < j < |names| ==> names[i] != names[j]
      ensures |names| == |datasetMap|
    {
      names := [];
      var rest := datasetMap.Keys;
      while rest != {}
        invariant rest <= datasetMap.Keys
        invariant forall n :: n in names <==> n in datasetMap && n !in rest
        invariant forall i, j :: 0 <= i < j < |names| ==> names[i] != names[j]
        invariant |names| + |rest| == |datasetMap|
        decreases |rest|
      {
        var n :| n in rest;
        names := names + [n];
        rest := rest - {n};
      }
    }

    /** getPathForDataset: IOException unless the name is a key whose file still exists. */
    function GetPathForDataset(datasetName: string, existing: set<string>): (r: Result<string, IOException>)
      reads this
      ensures r.Success? ==> datasetName in datasetMap && r.value == datasetMap[datasetName] && r.value in existing
      ensures r.Failure? ==> datasetName !in datasetMap || datasetMap[datasetName] !in existing
    {
      Lookup(datasetMap, datasetName, existing)
    }
  }
}
