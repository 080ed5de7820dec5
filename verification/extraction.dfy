/**
 * The OSMToVector process: it extracts a vector layer from a stored OSM
 * dataset by running the external extraction tool in a scratch directory.
 *
 * The host's filesystem and runtime are a World value that fixes what each
 * outside call yields, and a Host object that performs the calls and records
 * them as a trace of events. Execute is the specification of one run: the
 * events it causes and how it ends. OSMToVector.Run is proved to produce
 * exactly that, and the lemmas below state what Execute guarantees.
 */
module Extraction {
  import opened Common
  import opened Configuration
  import opened IOUtil
  import opened CommandLine
  import DatasetStore

  /** The directory the tool writes into, inside the scratch directory. */
  const ExportFileName: string := "out"
  const DefaultExtractBinary: string := "osm_extract.py"
  const FilterFileName: string := "filter.geojson"

  /** A JTS geometry; only its type name matters here. */
  datatype Geometry = Geometry(geometryType: string)

  predicate IsPolygonal(g: Geometry)
  {
    g.geometryType == "Polygon" || g.geometryType == "MultiPolygon"
  }

  /** How the tool's run ends: its exit code and error output, an interrupted wait, or no start at all. */
  datatype ProcessOutcome = Exit(code: int, stderr: string) | Interrupted | LaunchFailure

  /** The output: a lazy feature collection over the shapefile, not a copy of it. */
  datatype FeatureCollection = FeatureCollection(shapefile: Path)

  datatype Event =
    | TempDirectoryCreated(dir: Path)
    | FilterWritten(file: Path)
    | ProcessLaunched(argv: seq<string>, env: seq<string>, cwd: Path)
    | ErrorStreamRead(text: string)
    | ProcessDestroyed
    | ShapefileOpened(file: Path)
    | ScratchDeleted(dir: Path)

  /** What the host does during one run. */
  datatype World = World(
    tempName: Option<string>,          // the directory createTempDirectory makes; None: it throws
    filterWritable: bool,              // writing filter.geojson succeeds
    storeListing: Option<seq<string>>, // the store directory as the stream lists it; None: it cannot be opened
    jvmDirectory: Path,                // the JVM's working directory, against which relative paths resolve
    existing: set<string>,             // the files that exist when the dataset is looked up
    outcome: ProcessOutcome,
    shapefileReadable: bool,           // opening the shapefile and its feature source succeeds
    scratchExists: bool,               // the scratch directory still exists when the run ends
    scratch: Tree)                     // what the scratch directory holds then

  /** The process's inputs and configuration when it runs. */
  datatype Settings = Settings(
    tags: seq<string>,
    spatialFilter: Option<Geometry>,
    elementType: string,
    inputDataset: Option<string>,
    extractBinary: string,
    storeDirectory: Option<string>,
    workDirectory: Option<Path>)

  datatype Execution = Execution(events: seq<Event>, result: Result<FeatureCollection, Fault>)

  /** File.getAbsolutePath of an absolute path. */
  function Absolute(p: Path): string
  {
    "/" + Join("/", p)
  }

  /**
   * Path.toAbsolutePath().toString() of a path parsed from the string p: the
   * parser drops empty components (doubled and trailing '/'), and a relative
   * path is resolved against the working directory cwd. "." and ".." are
   * kept, as toAbsolutePath does not normalise them.
   */
  function AbsolutePath(cwd: Path, p: string): (r: string)
    ensures |r| > 0 && r[0] == '/'
  {
    if IsAbsolute(p) then Absolute(Components(p)) else Absolute(cwd + Components(p))
  }

  /**
   * A path already in absolute normal form is its own absolute path,
   * whatever the working directory.
   */
  lemma AbsolutePathOfNormalForm(cwd: Path, xs: Path)
    requires forall i :: 0 <= i < |xs| ==> xs[i] != "" && '/' !in xs[i]
    ensures AbsolutePath(cwd, Absolute(xs)) == Absolute(xs)
  {
    var p := Absolute(xs);
    assert p[0] == '/' && p[1..] == Join("/", xs);
    if xs == [] {
      assert Split(p, '/') == [""] + Split("", '/');
    } else {
      SplitJoin(xs, '/');
      assert Split(p, '/') == [""] + xs;
      NonEmptyKeeps(xs);
    }
  }

  /** A doubled separator is dropped: "/d//x" is "/d/x". */
  lemma DoubledSeparatorDropped(cwd: Path, d: string, x: string)
    requires d != "" && x != "" && '/' !in d && '/' !in x
    ensures AbsolutePath(cwd, "/" + d + "//" + x) == "/" + d + "/" + x
  {
    var zs := ["", d, "", x];
    assert zs[1..] == [d, "", x] && zs[1..][1..] == ["", x] && zs[1..][1..][1..] == [x];
    assert Join("/", ["", x]) == "/" + x;
    assert Join("/", [d, "", x]) == d + "/" + ("/" + x);
    assert Join("/", zs) == "/" + d + "//" + x by {
      assert Join("/", zs) == "/" + (d + "/" + ("/" + x));
      assert "/" + (d + "/" + ("/" + x)) == "/" + d + "//" + x;
    }
    ComponentsOfJoin(zs);
    assert NonEmpty(zs) == [d, x] by {
      assert NonEmpty([x]) == [x] by { assert [x][1..] == []; }
      assert NonEmpty(["", x]) == [x];
      assert NonEmpty([d, "", x]) == [d] + [x];
    }
    assert Join("/", [d, x]) == d + "/" + x by {
      assert [d, x][1..] == [x];
    }
  }

  /** A relative path is placed under the working directory: "d/x" is cwd/d/x. */
  lemma RelativePathResolved(cwd: Path, d: string, x: string)
    requires d != "" && x != "" && '/' !in d && '/' !in x
    ensures AbsolutePath(cwd, d + "/" + x) == Absolute(cwd + [d, x])
  {
    var zs := [d, x];
    assert Join("/", zs) == d + "/" + x by {
      assert zs[1..] == [x];
    }
    ComponentsOfJoin(zs);
    NonEmptyKeeps(zs);
  }

  /**
   * The absolute path of a store entry: the store directory's components and
   * the entry's, placed under the working directory unless the store
   * directory is absolute.
   */
  lemma StorePathResolved(cwd: Path, directory: string, fileName: string)
    ensures AbsolutePath(cwd, DatasetStore.PathOf(directory, fileName))
         == Absolute((if IsAbsolute(directory) then [] else cwd) + Components(directory) + Components(fileName))
  {
    var cs := Components(directory) + Components(fileName);
    assert forall i :: 0 <= i < |cs| ==> cs[i] != "" && '/' !in cs[i] by {
      forall i | 0 <= i < |cs| ensures cs[i] != "" && '/' !in cs[i] {
        if i >= |Components(directory)| {
          assert cs[i] == Components(fileName)[i - |Components(directory)|];
        }
      }
    }
    ParsePathString(IsAbsolute(directory), cs);
    var p := DatasetStore.PathOf(directory, fileName);
    assert p == PathString(IsAbsolute(directory), cs);
    if IsAbsolute(directory) {
      assert AbsolutePath(cwd, p) == Absolute(cs);
      assert [] + Components(directory) + Components(fileName) == cs;
    } else {
      assert AbsolutePath(cwd, p) == Absolute(cwd + cs);
      AppendAssociates(cwd, Components(directory), Components(fileName));
    }
  }

  /** An empty store directory leaves its entries relative, so they resolve under the working directory. */
  lemma EmptyStoreDirectoryIsRelative(cwd: Path, fileName: string)
    requires fileName != "" && '/' !in fileName
    ensures AbsolutePath(cwd, DatasetStore.PathOf("", fileName)) == Absolute(cwd + [fileName])
  {
    StorePathResolved(cwd, "", fileName);
    assert Split("", '/') == [""];
    assert Components("") == [];
    SplitPiece(fileName, '/', "");
    NonEmptyKeeps([fileName]);
    assert cwd + [] + [fileName] == cwd + [fileName];
  }

  function FilterPath(tmp: Path): Path
  {
    tmp + [FilterFileName]
  }

  function OutputPath(tmp: Path): string
  {
    Absolute(tmp + [ExportFileName])
  }

  function ShapefilePath(tmp: Path): (p: Path)
    ensures tmp < p
  {
    tmp + [ExportFileName, ExportLayerName + ".shp"]
  }

  /** The scratch directory of the run, when the work directory is set and creation succeeds. */
  function Scratch(s: Settings, w: World): Option<Path>
  {
    if s.workDirectory.Some? && w.tempName.Some? then Some(s.workDirectory.value + [w.tempName.value]) else None
  }

  function FilterFile(s: Settings, tmp: Path): Option<string>
  {
    if s.spatialFilter.Some? then Some(Absolute(FilterPath(tmp))) else None
  }

  /** The dataset's file as the current store resolves it; a failure to open or to find is "io". */
  function InputPath(s: Settings, w: World): Result<string, Fault>
  {
    if s.storeDirectory.None? then Failure(NullPointerException)
    else if w.storeListing.None? || s.inputDataset.None? then Failure(Report(Io))
    else
      match DatasetStore.Lookup(DatasetStore.Scanned(s.storeDirectory.value, w.storeListing.value), s.inputDataset.value, w.existing)
      case Success(p) => Success(AbsolutePath(w.jvmDirectory, p))
      case Failure(_) => Failure(Report(Io))
  }

  /** From the launch on: the outcome decides the events and the result. */
  function Launch(argv: seq<string>, tmp: Path, w: World): Execution
  {
    var launched := [ProcessLaunched(argv, [], tmp)];
    match w.outcome
    case LaunchFailure => Execution([], Failure(Report(Internal)))
    case Interrupted => Execution(launched + [ProcessDestroyed], Failure(Report(Internal)))
    case Exit(code, stderr) =>
      if code != 0 then Execution(launched + [ErrorStreamRead(stderr), ProcessDestroyed], Failure(Report(Internal)))
      else if !w.shapefileReadable then Execution(launched + [ProcessDestroyed], Failure(Report(Internal)))
      else Execution(launched + [ProcessDestroyed, ShapefileOpened(ShapefilePath(tmp))],
                     Success(FeatureCollection(ShapefilePath(tmp))))
  }

  /** The body of the run once the scratch directory exists, checks in source order. */
  function Attempt(s: Settings, w: World, tmp: Path): Execution
  {
    if ElementTypeArgs(s.elementType).None? then Execution([], Failure(Report(InvalidArgs)))
    else if s.spatialFilter.Some? && !IsPolygonal(s.spatialFilter.value) then Execution([], Failure(Report(InvalidArgs)))
    else if s.spatialFilter.Some? && !w.filterWritable then Execution([], Failure(Report(Internal)))
    else
      var written := if s.spatialFilter.Some? then [FilterWritten(FilterPath(tmp))] else [];
      match InputPath(s, w)
      case Failure(f) => Execution(written, Failure(f))
      case Success(input) =>
        var l := Launch(BuildCommandLine(s.extractBinary, s.tags, s.elementType, FilterFile(s, tmp), input, OutputPath(tmp)).value,
                        tmp, w);
        Execution(written + l.events, l.result)
  }

  /** One whole run: create the scratch directory, attempt, and delete it again if it still exists. */
  function Execute(s: Settings, w: World): Execution
  {
    if s.workDirectory.None? then Execution([], Failure(NullPointerException))
    else if w.tempName.None? then Execution([], Failure(Report(Internal)))
    else
      var tmp := Scratch(s, w).value;
      var a := Attempt(s, w, tmp);
      Execution([TempDirectoryCreated(tmp)] + a.events + (if w.scratchExists then [ScratchDeleted(tmp)] else []), a.result)
  }

  /** The host: performs each outside call as the world dictates and records it. */
  class Host {
    var trace: seq<Event>
    const world: World
    const fs: FileSystem

    constructor (world: World, fs: FileSystem)
      ensures trace == [] && this.world == world && this.fs == fs
    {
      trace := [];
      this.world := world;
      this.fs := fs;
    }

    /** Files.createTempDirectory(directory, "osmtovector"). */
    method CreateTempDirectory(directory: Path) returns (tmp: Option<Path>)
      modifies this`trace
      ensures tmp == if world.tempName.Some? then Some(directory + [world.tempName.value]) else None
      ensures trace == old(trace) + if tmp.Some? then [TempDirectoryCreated(tmp.value)] else []
    {
      if world.tempName.None? {
        return None;
      }
      tmp := Some(directory + [world.tempName.value]);
      trace := trace + [TempDirectoryCreated(tmp.value)];
    }

    /** GeoJSONFileCreator.writeGeoJSONFeatureCollection; false stands for its IOException. */
    method WriteFilter(file: Path) returns (ok: bool)
      modifies this`trace
      ensures ok == world.filterWritable
      ensures trace == old(trace) + if ok then [FilterWritten(file)] else []
    {
      ok := world.filterWritable;
      if ok {
        trace := trace + [FilterWritten(file)];
      }
    }

    /** Runtime.exec(argv, env, cwd); false stands for its IOException. */
    method Exec(argv: seq<string>, env: seq<string>, cwd: Path) returns (launched: bool)
      modifies this`trace
      ensures launched == !world.outcome.LaunchFailure?
      ensures trace == old(trace) + if launched then [ProcessLaunched(argv, env, cwd)] else []
    {
      launched := !world.outcome.LaunchFailure?;
      if launched {
        trace := trace + [ProcessLaunched(argv, env, cwd)];
      }
    }

    /** Process.waitFor: the exit code, or the wait is interrupted. */
    method WaitFor() returns (outcome: ProcessOutcome)
      ensures outcome == world.outcome
    {
      outcome := world.outcome;
    }

    /** Reads the process's error stream whole. */
    method ReadErrorStream() returns (text: string)
      modifies this`trace
      ensures text == if world.outcome.Exit? then world.outcome.stderr else ""
      ensures trace == old(trace) + [ErrorStreamRead(text)]
    {
      var stream := new InputStream(if world.outcome.Exit? then world.outcome.stderr else "");
      text := ReadInputStreamIntoString(stream);
      trace := trace + [ErrorStreamRead(text)];
    }

    /** Process.destroy. */
    method Destroy()
      modifies this`trace
      ensures trace == old(trace) + [ProcessDestroyed]
    {
      trace := trace + [ProcessDestroyed];
    }

    /** Opens the shapefile store and its feature source; None stands for their IOException. */
    method OpenShapefile(file: Path) returns (fc: Option<FeatureCollection>)
      modifies this`trace
      ensures fc == if world.shapefileReadable then Some(FeatureCollection(file)) else None
      ensures trace == old(trace) + if fc.Some? then [ShapefileOpened(file)] else []
    {
      if !world.shapefileReadable {
        return None;
      }
      fc := Some(FeatureCollection(file));
      trace := trace + [ShapefileOpened(file)];
    }

    /** The finally block: delete the scratch directory recursively if it still exists. */
    method DeleteScratch(dir: Path)
      modifies this`trace, fs
      ensures world.scratchExists ==>
        && fs.present == AfterDelete(world.scratch, dir, old(fs.present), fs.undeletable)
        && fs.attempts == old(fs.attempts) + PostOrder(world.scratch, dir)
        && trace == old(trace) + [ScratchDeleted(dir)]
      ensures !world.scratchExists ==>
        fs.present == old(fs.present) && fs.attempts == old(fs.attempts) && trace == old(trace)
    {
      if world.scratchExists {
        fs.RecursiveDelete(world.scratch, dir);
        trace := trace + [ScratchDeleted(dir)];
      }
    }
  }

  class OSMToVector {
    var tags: seq<string>
    var spatialFilter: Option<Geometry>
    var elementType: string
    var features: Option<FeatureCollection>
    var osmStoreDirectory: Option<string>
    var osmInputDataset: Option<string>
    var osmExtractBinary: string
    var workDirectory: Option<Path>

    /** No tags, no filter, element type "nodes" (the input's default), the default binary, nothing else set. */
    constructor ()
      ensures tags == [] && spatialFilter == None && elementType == "nodes" && features == None
      ensures osmStoreDirectory == None && osmInputDataset == None && workDirectory == None
      ensures osmExtractBinary == DefaultExtractBinary
    {
      tags := [];
      spatialFilter := None;
      elementType := "nodes";
      features := None;
      osmStoreDirectory := None;
      osmInputDataset := None;
      osmExtractBinary := DefaultExtractBinary;
      workDirectory := None;
    }

    method SetTag(tags: seq<string>)
      modifies this`tags
      ensures this.tags == tags
    {
      this.tags := tags;
    }

    method SetSpatialFilter(geometry: Option<Geometry>)
      modifies this`spatialFilter
      ensures spatialFilter == geometry
    {
      spatialFilter := geometry;
    }

    method SetElementsToExport(elementType: string)
      modifies this`elementType
      ensures this.elementType == elementType
    {
      this.elementType := elementType;
    }

    method SetInputDatasetName(datasetName: string)
      modifies this`osmInputDataset
      ensures osmInputDataset == Some(datasetName)
    {
      osmInputDataset := Some(datasetName);
    }

    /** The "exportedData" output: whatever the last successful run stored, None before any. */
    function GetExportedData(): (fc: Option<FeatureCollection>)
      reads this
      ensures fc.Some? ==> fc == features
      ensures fc.None? ==> features.None?
    {
      features
    }

    function CurrentSettings(): Settings
      reads this
    {
      Settings(tags, spatialFilter, elementType, osmInputDataset, osmExtractBinary, osmStoreDirectory, workDirectory)
    }

    /** setConfiguration: each of the three fields takes the value of the last entry with its key. */
    method SetConfiguration(entries: seq<Entry>)
      modifies this`osmStoreDirectory, this`osmExtractBinary, this`workDirectory
      ensures osmStoreDirectory == if LastValue(entries, OsmStoreDirectoryKey).Some?
        then LastValue(entries, OsmStoreDirectoryKey) else old(osmStoreDirectory)
      ensures osmExtractBinary == if LastValue(entries, OsmExtractBinaryKey).Some?
        then LastValue(entries, OsmExtractBinaryKey).value else old(osmExtractBinary)
      ensures workDirectory == if LastValue(entries, WorkDirectoryKey).Some?
        then Some(Components(LastValue(entries, WorkDirectoryKey).value)) else old(workDirectory)
    {
      for i := 0 to |entries|
        invariant osmStoreDirectory == if LastValue(entries[..i], OsmStoreDirectoryKey).Some?
          then LastValue(entries[..i], OsmStoreDirectoryKey) else old(osmStoreDirectory)
        invariant osmExtractBinary == if LastValue(entries[..i], OsmExtractBinaryKey).Some?
          then LastValue(entries[..i], OsmExtractBinaryKey).value else old(osmExtractBinary)
        invariant workDirectory == if LastValue(entries[..i], WorkDirectoryKey).Some?
          then Some(Components(LastValue(entries[..i], WorkDirectoryKey).value)) else old(workDirectory)
      {
        assert entries[..i + 1][..i] == entries[..i];
        var e := entries[i];
        if e.key == OsmStoreDirectoryKey {
          osmStoreDirectory := Some(e.value);
        } else if e.key == OsmExtractBinaryKey {
          osmExtractBinary := e.value;
        } else if e.key == WorkDirectoryKey {
          workDirectory := Some(Components(e.value));
        }
      }
      assert entries[..|entries|] == entries;
    }

    /**
     * The try block of run, once the scratch directory tmp exists: build the
     * arguments, check the element type, check and write the filter, resolve
     * the dataset, run the tool, wait, release it, open the result.
     */
    method Extract(tmp: Path, host: Host) returns (r: Result<FeatureCollection, Fault>)
      modifies host`trace
      ensures host.trace == old(host.trace) + Attempt(CurrentSettings(), host.world, tmp).events
      ensures r == Attempt(CurrentSettings(), host.world, tmp).result
    {
      ghost var s := CurrentSettings();
      ghost var w := host.world;
      var args := LeadingArgs();

      if elementType == "nodes" {
      } else if elementType == "ways" {
        args := args + ["--ways", "--length"];
      } else {
        return Failure(Report(InvalidArgs));
      }

      if spatialFilter.Some? {
        if !IsPolygonal(spatialFilter.value) {
          return Failure(Report(InvalidArgs));
        }
        var written := host.WriteFilter(FilterPath(tmp));
        if !written {
          return Failure(Report(Internal));
        }
        args := args + ["--geofilter", Absolute(FilterPath(tmp))];
      }
      ghost var written := if spatialFilter.Some? then [FilterWritten(FilterPath(tmp))] else [];

      var input := ResolveInput(host.world);
      if input.Failure? {
        return Failure(input.error);
      }
      args := args + [input.value, OutputPath(tmp)];
      assert args == BuildCommandLine(osmExtractBinary, tags, elementType, FilterFile(s, tmp), input.value, OutputPath(tmp)).value;
      assert host.trace == old(host.trace) + written;
      r := RunTool(args, tmp, host);
      AppendAssociates(old(host.trace), written, Launch(args, tmp, w).events);
    }

    /** The arguments before the element type's: binary, layer, the tags, the format. */
    method LeadingArgs() returns (args: seq<string>)
      ensures args == [osmExtractBinary, "-l", ExportLayerName] + TagArgs(tags) + ["-f", OutputFormat]
    {
      args := [osmExtractBinary, "-l", ExportLayerName];
      if tags != [] {
        args := args + ["-t"];
        for i := 0 to |tags|
          invariant args == [osmExtractBinary, "-l", ExportLayerName, "-t"] + tags[..i]
        {
          args := args + [tags[i]];
        }
        assert tags[..|tags|] == tags;
      }
      args := args + ["-f", OutputFormat];
    }

    /** Opens the store on its directory and asks it for the dataset's path. */
    method ResolveInput(w: World) returns (input: Result<string, Fault>)
      ensures input == InputPath(CurrentSettings(), w)
    {
      if osmStoreDirectory.None? {
        return Failure(NullPointerException);
      }
      if w.storeListing.None? {
        return Failure(Report(Io));
      }
      var store := new DatasetStore.Store(osmStoreDirectory.value, w.storeListing.value);
      if osmInputDataset.None? {
        return Failure(Report(Io));
      }
      var path := store.GetPathForDataset(osmInputDataset.value, w.existing);
      if path.Failure? {
        return Failure(Report(Io));
      }
      return Success(AbsolutePath(w.jvmDirectory, path.value));
    }

    /** Launch, wait, release the process in every case, then open the result. */
    method RunTool(argv: seq<string>, tmp: Path, host: Host) returns (r: Result<FeatureCollection, Fault>)
      modifies host`trace
      ensures host.trace == old(host.trace) + Launch(argv, tmp, host.world).events
      ensures r == Launch(argv, tmp, host.world).result
    {
      var launched := host.Exec(argv, [], tmp);
      if !launched {
        return Failure(Report(Internal));
      }
      var outcome := host.WaitFor();
      if outcome.Interrupted? {
        host.Destroy();
        return Failure(Report(Internal));
      }
      if outcome.code != 0 {
        var errOutput := host.ReadErrorStream();
        host.Destroy();
        return Failure(Report(Internal));
      }
      host.Destroy();

      var fc := host.OpenShapefile(ShapefilePath(tmp));
      if fc.None? {
        return Failure(Report(Internal));
      }
      return Success(fc.value);
    }

    /**
     * run: configure, then run as configured. Apart from the configured
     * fields and the features, no field of the process changes.
     */
    method Run(entries: seq<Entry>, host: Host) returns (r: Result<(), Fault>)
      modifies this, host`trace, host.fs
      ensures osmStoreDirectory == if LastValue(entries, OsmStoreDirectoryKey).Some?
        then LastValue(entries, OsmStoreDirectoryKey) else old(osmStoreDirectory)
      ensures osmExtractBinary == if LastValue(entries, OsmExtractBinaryKey).Some?
        then LastValue(entries, OsmExtractBinaryKey).value else old(osmExtractBinary)
      ensures workDirectory == if LastValue(entries, WorkDirectoryKey).Some?
        then Some(Components(LastValue(entries, WorkDirectoryKey).value)) else old(workDirectory)
      ensures tags == old(tags) && spatialFilter == old(spatialFilter)
      ensures elementType == old(elementType) && osmInputDataset == old(osmInputDataset)
      ensures var e := Execute(CurrentSettings(), host.world);
        && host.trace == old(host.trace) + e.events
        && (r.Success? <==> e.result.Success?)
        && (r.Failure? ==> r.error == e.result.error && features == old(features))
        && (r.Success? ==> features == Some(e.result.value))
      ensures var tmp := Scratch(CurrentSettings(), host.world);
        if tmp.Some? && host.world.scratchExists
        then host.fs.present == AfterDelete(host.world.scratch, tmp.value, old(host.fs.present), host.fs.undeletable)
        else host.fs.present == old(host.fs.present)
    {
      SetConfiguration(entries);
      r := RunConfigured(host);
    }

    /**
     * The rest of run: create the scratch directory, extract, and in every
     * case delete the scratch directory again once it exists. The features
     * field changes only on success.
     */
    method RunConfigured(host: Host) returns (r: Result<(), Fault>)
      modifies this`features, host`trace, host.fs
      ensures var e := Execute(CurrentSettings(), host.world);
        && host.trace == old(host.trace) + e.events
        && (r, features) == Outcome(e.result, old(features))
      ensures var tmp := Scratch(CurrentSettings(), host.world);
        if tmp.Some? && host.world.scratchExists
        then host.fs.present == AfterDelete(host.world.scratch, tmp.value, old(host.fs.present), host.fs.undeletable)
        else host.fs.present == old(host.fs.present)
    {
      if workDirectory.None? {
        return Failure(NullPointerException);
      }
      r := RunInWorkDirectory(host);
    }

    /** Creates the scratch directory in the work directory, then attempts and cleans up. */
    method RunInWorkDirectory(host: Host) returns (r: Result<(), Fault>)
      requires workDirectory.Some?
      modifies this`features, host`trace, host.fs
      ensures var e := Execute(CurrentSettings(), host.world);
        && host.trace == old(host.trace) + e.events
        && (r, features) == Outcome(e.result, old(features))
      ensures var tmp := Scratch(CurrentSettings(), host.world);
        if tmp.Some? && host.world.scratchExists
        then host.fs.present == AfterDelete(host.world.scratch, tmp.value, old(host.fs.present), host.fs.undeletable)
        else host.fs.present == old(host.fs.present)
    {
      var tmp := host.CreateTempDirectory(workDirectory.value);
      if tmp.None? {
        return Failure(Report(Internal));
      }
      ghost var created := host.trace;
      r := AttemptAndCleanUp(tmp.value, host);
      ExecuteWithScratch(CurrentSettings(), host.world);
      AppendAssociates(old(host.trace), [TempDirectoryCreated(tmp.value)], host.trace[|created|..]);
    }

    /**
     * The try block and the finally block once the scratch directory tmp
     * exists: the attempt's events, then the deletion when tmp still exists.
     */
    method AttemptAndCleanUp(tmp: Path, host: Host) returns (r: Result<(), Fault>)
      modifies this`features, host`trace, host.fs
      ensures var a := Attempt(CurrentSettings(), host.world, tmp);
        && host.trace == old(host.trace) + (a.events + Cleanup(tmp, host.world))
        && (r, features) == Outcome(a.result, old(features))
      ensures if host.world.scratchExists
        then host.fs.present == AfterDelete(host.world.scratch, tmp, old(host.fs.present), host.fs.undeletable)
        else host.fs.present == old(host.fs.present)
    {
      var outcome := Extract(tmp, host);
      if outcome.Success? {
        features := Some(outcome.value);
      }
      ghost var attempted := host.trace;
      host.DeleteScratch(tmp);
      assert host.trace == attempted + Cleanup(tmp, host.world);
      if outcome.Failure? {
        return Failure(outcome.error);
      }
      return Success(());
    }
  }

  /**
   * What run returns and what the exportedData field holds afterwards: a
   * result is stored, a failure is thrown and leaves the field as it was.
   */
  function Outcome(result: Result<FeatureCollection, Fault>, features: Option<FeatureCollection>)
    : (Result<(), Fault>, Option<FeatureCollection>)
  {
    match result
    case Success(fc) => (Success(()), Some(fc))
    case Failure(f) => (Failure(f), features)
  }

  /** The finally block's event: the deletion, when the scratch directory still exists. */
  function Cleanup(tmp: Path, w: World): seq<Event>
  {
    if w.scratchExists then [ScratchDeleted(tmp)] else []
  }

  /** Once the scratch directory exists, a run is its creation, the attempt, and its deletion. */
  lemma ExecuteWithScratch(s: Settings, w: World)
    requires s.workDirectory.Some? && w.tempName.Some?
    ensures var tmp := s.workDirectory.value + [w.tempName.value];
      && Scratch(s, w) == Some(tmp)
      && Execute(s, w).events == [TempDirectoryCreated(tmp)] + (Attempt(s, w, tmp).events + Cleanup(tmp, w))
      && Execute(s, w).result == Attempt(s, w, tmp).result
  {
    var tmp := s.workDirectory.value + [w.tempName.value];
    var a := Attempt(s, w, tmp).events;
    assert [TempDirectoryCreated(tmp)] + a + Cleanup(tmp, w) == [TempDirectoryCreated(tmp)] + (a + Cleanup(tmp, w));
  }

  /** An event of the attempt itself, not of the scratch directory's creation or deletion. */
  predicate Inner(ev: Event)
  {
    !ev.TempDirectoryCreated? && !ev.ScratchDeleted?
  }

  /** The checks before the launch pass and the dataset resolves. */
  predicate Proceeds(s: Settings, w: World)
  {
    && ElementTypeArgs(s.elementType).Some?
    && (s.spatialFilter.Some? ==> IsPolygonal(s.spatialFilter.value) && w.filterWritable)
    && InputPath(s, w).Success?
  }

  /** The argument vector of a run that gets as far as the launch. */
  function Argv(s: Settings, w: World, tmp: Path): seq<string>
    requires Proceeds(s, w)
  {
    BuildCommandLine(s.extractBinary, s.tags, s.elementType, FilterFile(s, tmp), InputPath(s, w).value, OutputPath(tmp)).value
  }

  /** The filter file's event, when there is a filter. */
  function Written(s: Settings, tmp: Path): seq<Event>
  {
    if s.spatialFilter.Some? then [FilterWritten(FilterPath(tmp))] else []
  }

  /**
   * An attempt either stops before the launch, failing with at most the
   * filter written, or is the filter's event followed by the launch.
   */
  lemma AttemptShape(s: Settings, w: World, tmp: Path)
    ensures var a := Attempt(s, w, tmp);
      if Proceeds(s, w)
      then a == Execution(Written(s, tmp) + Launch(Argv(s, w, tmp), tmp, w).events, Launch(Argv(s, w, tmp), tmp, w).result)
      else a.result.Failure? && forall ev :: ev in a.events ==> ev.FilterWritten?
  {
  }

  /** What a launch records, and how its outcome decides the result. */
  lemma LaunchClassified(argv: seq<string>, tmp: Path, w: World)
    ensures var l := Launch(argv, tmp, w);
      && (forall ev :: ev in l.events ==> Inner(ev))
      && (forall ev :: ev in l.events && ev.ProcessLaunched? ==> ev == ProcessLaunched(argv, [], tmp))
      && (Launched(l.events) <==> !w.outcome.LaunchFailure?)
      && (ProcessDestroyed in l.events <==> !w.outcome.LaunchFailure?)
      && (!(w.outcome.Exit? && w.outcome.code == 0) ==> l.result == Failure(Report(Internal)))
      && (w.outcome.Exit? && w.outcome.code != 0 ==> ErrorStreamRead(w.outcome.stderr) in l.events)
  {
    if !w.outcome.LaunchFailure? {
      assert Launch(argv, tmp, w).events[0] == ProcessLaunched(argv, [], tmp);
    }
  }

  lemma AttemptEventsAreInner(s: Settings, w: World, tmp: Path)
    ensures forall ev :: ev in Attempt(s, w, tmp).events ==> Inner(ev)
  {
    AttemptShape(s, w, tmp);
    if Proceeds(s, w) {
      LaunchClassified(Argv(s, w, tmp), tmp, w);
    }
  }

  /** The launch and release of an attempt, lifted from the launch's. */
  lemma AttemptClassified(s: Settings, w: World, tmp: Path)
    ensures var a := Attempt(s, w, tmp);
      && (forall ev :: ev in a.events && ev.ProcessLaunched? ==> Proceeds(s, w) && ev == ProcessLaunched(Argv(s, w, tmp), [], tmp))
      && (Launched(a.events) <==> ProcessDestroyed in a.events)
      && (Launched(a.events) && !(w.outcome.Exit? && w.outcome.code == 0) ==> a.result == Failure(Report(Internal)))
      && (Launched(a.events) && w.outcome.Exit? && w.outcome.code != 0 ==> ErrorStreamRead(w.outcome.stderr) in a.events)
      && (w.outcome.LaunchFailure? ==> !Launched(a.events) && a.result.Failure?)
  {
    AttemptShape(s, w, tmp);
    if Proceeds(s, w) {
      LaunchClassified(Argv(s, w, tmp), tmp, w);
    }
  }

  /**
   * At most one scratch directory per run, and cleanup on every path: with
   * no work directory or a failed creation nothing happens and the run
   * fails; otherwise creation is the first event and, when the directory
   * still exists at the end, its deletion is the last and only one.
   */
  lemma ScratchDirectoryLifecycle(s: Settings, w: World)
    ensures var e := Execute(s, w);
      match Scratch(s, w)
      case None => e.events == [] && e.result.Failure?
      case Some(tmp) =>
        && e.events[0] == TempDirectoryCreated(tmp)
        && (forall i :: 0 < i < |e.events| ==> !e.events[i].TempDirectoryCreated?)
        && (w.scratchExists ==>
              && e.events[|e.events| - 1] == ScratchDeleted(tmp)
              && forall i :: 0 <= i < |e.events| - 1 ==> !e.events[i].ScratchDeleted?)
        && (!w.scratchExists ==> forall i :: 0 <= i < |e.events| ==> !e.events[i].ScratchDeleted?)
  {
    if Scratch(s, w).Some? {
      var tmp := Scratch(s, w).value;
      ExecuteWithScratch(s, w);
      AttemptEventsAreInner(s, w, tmp);
      Bracketed(tmp, Attempt(s, w, tmp).events, Cleanup(tmp, w));
    }
  }

  /** Creation, then events that neither create nor delete, then at most the deletion. */
  lemma Bracketed(tmp: Path, inner: seq<Event>, cleanup: seq<Event>)
    requires forall ev :: ev in inner ==> Inner(ev)
    requires cleanup == [] || cleanup == [ScratchDeleted(tmp)]
    ensures var evs := [TempDirectoryCreated(tmp)] + (inner + cleanup);
      && evs[0] == TempDirectoryCreated(tmp)
      && (forall i :: 0 < i < |evs| ==> !evs[i].TempDirectoryCreated?)
      && (cleanup != [] ==>
            && evs[|evs| - 1] == ScratchDeleted(tmp)
            && forall i :: 0 <= i < |evs| - 1 ==> !evs[i].ScratchDeleted?)
      && (cleanup == [] ==> forall i :: 0 <= i < |evs| ==> !evs[i].ScratchDeleted?)
  {
    var evs := [TempDirectoryCreated(tmp)] + (inner + cleanup);
    forall i | 0 < i < |evs| - |cleanup|
      ensures evs[i] in inner
    {
      assert evs[i] == inner[i - 1];
    }
  }

  /** The events of a run whose attempt stopped before writing or launching anything. */
  function Bare(tmp: Path, w: World): seq<Event>
  {
    [TempDirectoryCreated(tmp)] + if w.scratchExists then [ScratchDeleted(tmp)] else []
  }

  /**
   * An element type other than "nodes" or "ways" fails with "invalid-args",
   * whatever the filter and the dataset: no filter is written and no process
   * launched, and the scratch directory is still deleted.
   */
  lemma InvalidElementTypeRejected(s: Settings, w: World)
    requires Scratch(s, w).Some?
    requires s.elementType != "nodes" && s.elementType != "ways"
    ensures Execute(s, w) == Execution(Bare(Scratch(s, w).value, w), Failure(Report(InvalidArgs)))
  {
  }

  /**
   * With a valid element type, a filter that is neither Polygon nor
   * MultiPolygon fails with "invalid-args" whatever the dataset, before the
   * filter file is written or a process launched.
   */
  lemma InvalidFilterRejected(s: Settings, w: World)
    requires Scratch(s, w).Some?
    requires s.elementType == "nodes" || s.elementType == "ways"
    requires s.spatialFilter.Some? && !IsPolygonal(s.spatialFilter.value)
    ensures Execute(s, w) == Execution(Bare(Scratch(s, w).value, w), Failure(Report(InvalidArgs)))
  {
  }

  /** The run launched the tool. */
  ghost predicate Launched(events: seq<Event>)
  {
    exists ev :: ev in events && ev.ProcessLaunched?
  }

  /**
   * Once both checks pass, a dataset that cannot be resolved (the store
   * cannot be opened, the name is unknown, its file is gone) fails with
   * "io" and no process is launched.
   */
  lemma UnknownDatasetRejected(s: Settings, w: World)
    requires Scratch(s, w).Some?
    requires s.elementType == "nodes" || s.elementType == "ways"
    requires s.spatialFilter.Some? ==> IsPolygonal(s.spatialFilter.value) && w.filterWritable
    requires s.storeDirectory.Some? && InputPath(s, w).Failure?
    ensures Execute(s, w).result == Failure(Report(Io))
    ensures !Launched(Execute(s, w).events)
  {
  }

  /**
   * The dataset the tool reads is a file the store's scan found: the path of
   * a listed *.osm.pbf entry that still exists, never a path built from the
   * caller's name.
   */
  lemma InputIsAScannedFile(s: Settings, w: World)
    requires InputPath(s, w).Success?
    ensures s.storeDirectory.Some? && w.storeListing.Some?
    ensures exists i ::
      && 0 <= i < |w.storeListing.value|
      && DatasetStore.MatchesGlob(w.storeListing.value[i])
      && DatasetStore.PathOf(s.storeDirectory.value, w.storeListing.value[i]) in w.existing
      && InputPath(s, w).value == AbsolutePath(w.jvmDirectory, DatasetStore.PathOf(s.storeDirectory.value, w.storeListing.value[i]))
      && InputPath(s, w).value
         == Absolute((if IsAbsolute(s.storeDirectory.value) then [] else w.jvmDirectory)
                     + Components(s.storeDirectory.value) + Components(w.storeListing.value[i]))
  {
    var directory, listing := s.storeDirectory.value, w.storeListing.value;
    DatasetStore.LookupOnlyListedFiles(directory, listing, s.inputDataset.value, w.existing);
    var i :| && 0 <= i < |listing| && DatasetStore.MatchesGlob(listing[i])
             && DatasetStore.PathOf(directory, listing[i]) in w.existing
             && InputPath(s, w).value == AbsolutePath(w.jvmDirectory, DatasetStore.PathOf(directory, listing[i]));
    StorePathResolved(w.jvmDirectory, directory, listing[i]);
  }

  /**
   * A launch uses the argument vector of the inputs, with the filter file and
   * the output inside the scratch directory, an empty environment, and the
   * scratch directory as working directory.
   */
  lemma LaunchedAsConfigured(s: Settings, w: World)
    requires Scratch(s, w).Some?
    ensures var tmp := Scratch(s, w).value;
      forall ev :: ev in Execute(s, w).events && ev.ProcessLaunched? ==>
        && InputPath(s, w).Success?
        && ev.argv == BuildCommandLine(s.extractBinary, s.tags, s.elementType, FilterFile(s, tmp),
                                       InputPath(s, w).value, OutputPath(tmp)).value
        && ev.env == []
        && ev.cwd == tmp
  {
    ExecuteWithScratch(s, w);
    AttemptClassified(s, w, Scratch(s, w).value);
  }

  /**
   * The process is destroyed exactly when it was launched; a non-zero exit
   * reads the error stream and fails with "internal", as does an interrupted
   * wait; a launch failure is "internal" too and destroys nothing.
   */
  lemma ProcessOutcomeClassified(s: Settings, w: World)
    requires Scratch(s, w).Some?
    ensures var e := Execute(s, w);
      && (Launched(e.events) <==> ProcessDestroyed in e.events)
      && (Launched(e.events) && w.outcome.Interrupted? ==> e.result == Failure(Report(Internal)))
      && (Launched(e.events) && w.outcome.Exit? && w.outcome.code != 0 ==>
            e.result == Failure(Report(Internal)) && ErrorStreamRead(w.outcome.stderr) in e.events)
      && (w.outcome.LaunchFailure? ==> !Launched(e.events) && e.result.Failure?)
  {
    ExecuteWithScratch(s, w);
    AttemptClassified(s, w, Scratch(s, w).value);
  }

  /**
   * A result exists only after a clean exit, and it is the lazy collection
   * over tmp/out/export.shp, opened after the process was released and
   * before the scratch directory is deleted: the whole run is the creation,
   * the filter file, the launch, the release, the opening and the cleanup,
   * in that order.
   */
  lemma ResultOnlyAfterCleanExit(s: Settings, w: World)
    requires Execute(s, w).result.Success?
    ensures Scratch(s, w).Some? && Proceeds(s, w)
    ensures w.outcome.Exit? && w.outcome.code == 0 && w.shapefileReadable
    ensures var tmp := Scratch(s, w).value;
      && Execute(s, w).result.value == FeatureCollection(ShapefilePath(tmp))
      && Execute(s, w).events
         == [TempDirectoryCreated(tmp)] + Written(s, tmp)
            + [ProcessLaunched(Argv(s, w, tmp), [], tmp), ProcessDestroyed, ShapefileOpened(ShapefilePath(tmp))]
            + Cleanup(tmp, w)
  {
    var tmp := Scratch(s, w).value;
    ExecuteWithScratch(s, w);
    AttemptShape(s, w, tmp);
    var launch := Launch(Argv(s, w, tmp), tmp, w).events;
    AppendAssociates(Written(s, tmp), launch, Cleanup(tmp, w));
    AppendAssociates([TempDirectoryCreated(tmp)], Written(s, tmp), launch + Cleanup(tmp, w));
    AppendAssociates([TempDirectoryCreated(tmp)] + Written(s, tmp), launch, Cleanup(tmp, w));
  }

  /**
   * The collection handed back is not a copy: when the scratch directory is
   * deleted completely, the shapefile behind a successful result is gone.
   */
  lemma ResultOutlivesItsFile(s: Settings, w: World, present: set<Path>, undeletable: set<Path>)
    requires Execute(s, w).result.Success? && w.scratchExists
    requires WellFormed(w.scratch)
    requires forall p :: p in present && Scratch(s, w).value <= p ==> p in Nodes(w.scratch, Scratch(s, w).value)
    requires forall p :: p in Nodes(w.scratch, Scratch(s, w).value) ==> p !in undeletable
    ensures Execute(s, w).result.value.shapefile !in AfterDelete(w.scratch, Scratch(s, w).value, present, undeletable)
  {
    ResultOnlyAfterCleanExit(s, w);
    var tmp := Scratch(s, w).value;
    DeleteEmptiesTree(w.scratch, tmp, present, undeletable);
    assert tmp <= ShapefilePath(tmp);
  }
}
