# OSMToVector WPS processes, modelled in Dafny

This project models the processes of the 52°North WPS repository
`org.n52.dlr.osmtovector`:

- **OSMToVector** extracts a vector layer from a stored OpenStreetMap dataset. It runs an external extraction tool in a scratch directory and removes that directory afterwards.
- **OSMDatasetList** lists the datasets of the store.
- **The dataset stores.** The current store, `io/OSMDatasetStore`, maps sanitised names to scanned files. The older one, `util/OSMDatasetStore`, builds paths from the caller's name.
- **Helpers** delete a file tree recursively and read a stream whole.
- **The process repository** registers the processes with the WPS server.

Files:

- `common.dfy`: Option and Result, the exception codes of an ExceptionReport ("invalid-args", "io", "internal"), `String.join` and a reference splitter that inverts it.
- `configuration.dfy`: the three configuration keys, their declared defaults, and "the last entry with a key wins".
- `io_util.dfy`: a file system as a set of present paths with a delete oracle. Also the post-order `RecursiveDelete`, the `InputStream` and the whole-stream read.
- `dataset_store.dfy`: name sanitisation and the scan. The `Store` class holds the map; lookups return only paths the scan stored.
- `legacy_dataset_store.dfy`: the older store. Its `replaceAll` treats `.` as a wildcard; it also builds paths.
- `dataset_list.dfy`: the `OSMDatasetList` process.
- `command_line.dfy`: the tool's argument vector, and a reader that recovers the request from it.
- `extraction.dfy`: the `OSMToVector` process.
  - The host's behaviour during a run is a `World` value. It fixes the temp-directory name, the store listing, the process outcome and whether the shapefile is readable.
  - A `Host` object performs the outside calls and records them as a trace of events.
  - `Execute` is the specification of one run: its events and its result.
  - `OSMToVector.Run` is proved to produce exactly that, and the lemmas state what `Execute` guarantees.
- `process_repository.dfy`: `OSMToVectorProcessRepository`. Class loading is a map from class name to what reflection finds.

A run that does not succeed ends in a `Fault`. That is either an ExceptionReport with its code, or an unchecked exception: a NullPointerException when a configuration value was never set.

## Model

All source paths are below `src/main/java/org/n52/dlr/osmtovector/`.

| member | source | states |
|---|---|---|
| Common.SplitJoin | src/main/java/org/n52/dlr/osmtovector/algorithm/OSMDatasetList.java:60-62 | cutting a non-empty comma-join of comma-free names at every ',' gives back exactly the names, in order |
| Configuration.LastValueIsLastEntry | src/main/java/org/n52/dlr/osmtovector/algorithm/OSMToVector.java:135-143 | the value a setConfiguration loop ends with: None exactly when no entry carries the key, else the value of the last entry that does |
| Configuration.LastValueNone | src/main/java/org/n52/dlr/osmtovector/algorithm/OSMToVector.java:135-143 | by induction on the entries: the loop leaves the field unset exactly when no entry carries the key |
| Configuration.LastValueAt | src/main/java/org/n52/dlr/osmtovector/algorithm/OSMToVector.java:135-143 | by induction on the entries: when entry i is the last one with the key, the loop ends with its value |
| Configuration.DefaultsConfigureEverything | src/main/java/org/n52/dlr/osmtovector/modules/OSMToVectorProcessRepositoryCM.java:46-74 | with the declared entries the store directory is "/tmp", the binary "osm_extract.py" and the work directory the JVM's temp directory |
| IOUtil.FileSystem.Delete | src/main/java/org/n52/dlr/osmtovector/io/IOUtil.java:40 | File.delete succeeds exactly on an existing, deletable entry with nothing below it; it removes only that entry; every attempt is recorded |
| IOUtil.FileSystem.RecursiveDelete | src/main/java/org/n52/dlr/osmtovector/io/IOUtil.java:34-43 | the attempts are exactly the post-order of the tree, failed deletes included; the file system afterwards is the post-order fold of the delete oracle; `FileUtil.recursiveDelete` (util/FileUtil.java, lines 13-22) is the same code and is modelled by this method |
| IOUtil.PostOrderVisitsEachOnce | src/main/java/org/n52/dlr/osmtovector/io/IOUtil.java:35-40 | every entry of a well-formed tree gets exactly one delete attempt, each entry after everything below it, the root last, and nothing outside the tree |
| IOUtil.DeleteStaysInside | src/main/java/org/n52/dlr/osmtovector/io/IOUtil.java:34-43 | recursiveDelete only removes paths, and only at or below the entry it was given |
| IOUtil.DeleteEmptiesTree | src/main/java/org/n52/dlr/osmtovector/io/IOUtil.java:34-43 | when the snapshot lists everything below the entry and no delete is refused, nothing at or below it remains |
| IOUtil.ReadInputStreamIntoString | src/main/java/org/n52/dlr/osmtovector/io/IOUtil.java:45-50 | the whole unread content of an open stream, "" for an empty or closed one; the stream is closed and drained afterwards |
| DatasetStore.KeepAllowed | src/main/java/org/n52/dlr/osmtovector/io/OSMDatasetStore.java:55 | the result holds only characters of [a-zA-Z0-9.-_], and an already clean text is kept unchanged |
| DatasetStore.KeepAllowedChar | src/main/java/org/n52/dlr/osmtovector/io/OSMDatasetStore.java:55 | one character is kept exactly when it is in [a-zA-Z0-9.-_], and dropped otherwise |
| DatasetStore.KeepAllowedAppend | src/main/java/org/n52/dlr/osmtovector/io/OSMDatasetStore.java:55 | filtering distributes over concatenation, so the kept characters stay in their original order |
| DatasetStore.DatasetName | src/main/java/org/n52/dlr/osmtovector/io/OSMDatasetStore.java:52-56 | every dataset name is whitelisted, so it holds neither '/' nor ',' |
| DatasetStore.RemoveAppendedExtension | src/main/java/org/n52/dlr/osmtovector/io/OSMDatasetStore.java:54 | literal removal of ".osm.pbf" from a base plus the extension gives the base back when the base holds no occurrence |
| DatasetStore.PlainFileName | src/main/java/org/n52/dlr/osmtovector/io/OSMDatasetStore.java:52-56 | a file `<base>.osm.pbf` with a clean base matches the glob and is listed under exactly `<base>` |
| DatasetStore.BareExtensionHasEmptyName | src/main/java/org/n52/dlr/osmtovector/io/OSMDatasetStore.java:52-56 | the file named only ".osm.pbf" is listed under the empty name |
| DatasetStore.ScanFilesLastEntry | src/main/java/org/n52/dlr/osmtovector/io/OSMDatasetStore.java:43-50 | after a scan the keys are exactly the names of the matching entries, and colliding names keep the last listed path |
| DatasetStore.ScanKeys | src/main/java/org/n52/dlr/osmtovector/io/OSMDatasetStore.java:43-50 | by induction on the listing: a name is a key of the scan exactly when some matching entry is filed under it |
| DatasetStore.ScanKeepsLast | src/main/java/org/n52/dlr/osmtovector/io/OSMDatasetStore.java:46-49 | by induction on the listing: a name maps to the path of the last matching entry filed under it |
| DatasetStore.ScannedPathsAreListed | src/main/java/org/n52/dlr/osmtovector/io/OSMDatasetStore.java:46-49 | every stored path is the path of a listed entry matching `*.osm.pbf` |
| DatasetStore.LookupOnlyListedFiles | src/main/java/org/n52/dlr/osmtovector/io/OSMDatasetStore.java:64-70 | a lookup returns only an existing path of a listed entry, never one built from the caller's name; a name with a character outside the whitelist, such as '/', always fails |
| DatasetStore.LookupFindsPlainFile | src/main/java/org/n52/dlr/osmtovector/io/OSMDatasetStore.java:64-70 | a cleanly named file that was the last one listed under its name and still exists is found under its own name |
| DatasetStore.Store.constructor | src/main/java/org/n52/dlr/osmtovector/io/OSMDatasetStore.java:38-41 | the store is populated at once: its map is the scan of the listing |
| DatasetStore.Store.ScanDirectory | src/main/java/org/n52/dlr/osmtovector/io/OSMDatasetStore.java:43-50 | the map is cleared, then holds the scan of the listing; when the directory cannot be opened the map stays cleared and the call fails |
| DatasetStore.Store.GetDatasetList | src/main/java/org/n52/dlr/osmtovector/io/OSMDatasetStore.java:58-62 | exactly the key set of the map, without duplicates |
| DatasetStore.Store.GetPathForDataset | src/main/java/org/n52/dlr/osmtovector/io/OSMDatasetStore.java:64-70 | the stored path when the name is a key and the file still exists; an IOException otherwise |
| LegacyDatasetStore.StripPattern | src/main/java/org/n52/dlr/osmtovector/util/OSMDatasetStore.java:22 | replaceAll(".osm.pbf", "") removes non-overlapping matches left to right, with each '.' matching any character but a line terminator; it never lengthens the name |
| LegacyDatasetStore.StripAppendedExtension | src/main/java/org/n52/dlr/osmtovector/util/OSMDatasetStore.java:21-23 | no match straddles a base and the appended extension, so a base with no match of its own is returned intact |
| LegacyDatasetStore.Matching | src/main/java/org/n52/dlr/osmtovector/util/OSMDatasetStore.java:30-31 | the directory stream yields only listed entries that match the glob |
| LegacyDatasetStore.MatchingAppend | src/main/java/org/n52/dlr/osmtovector/util/OSMDatasetStore.java:30-31 | the stream is a filter over the listing: a listing's matches are its first part's followed by the rest's, so order is kept and no match is lost |
| LegacyDatasetStore.RemoveSlashes | src/main/java/org/n52/dlr/osmtovector/util/OSMDatasetStore.java:38 | replaceAll("/", "") leaves no '/' and leaves a name without '/' unchanged |
| LegacyDatasetStore.FileComponent | src/main/java/org/n52/dlr/osmtovector/util/OSMDatasetStore.java:38 | the appended component holds no '/' and ends in ".osm.pbf"; for a name without '/' it is the name plus the extension |
| LegacyDatasetStore.Store.constructor | src/main/java/org/n52/dlr/osmtovector/util/OSMDatasetStore.java:17-19 | only the directory is stored; nothing is listed |
| LegacyDatasetStore.Store.GetDatasetList | src/main/java/org/n52/dlr/osmtovector/util/OSMDatasetStore.java:25-35 | an IOException exactly when the directory cannot be opened; otherwise one name per matching entry, in listing order, duplicates kept |
| LegacyDatasetStore.Store.GetPathForDataset | src/main/java/org/n52/dlr/osmtovector/util/OSMDatasetStore.java:37-43 | the path `Paths.get` builds from the directory and `<name without '/'>.osm.pbf`, exactly when it is a regular file; an IOException otherwise |
| LegacyDatasetStore.PathStaysInDirectory | src/main/java/org/n52/dlr/osmtovector/util/OSMDatasetStore.java:38 | whatever the name, the built path parses as the directory's components followed by exactly one component, which ends in ".osm.pbf"; it is absolute exactly when the directory is |
| LegacyDatasetStore.ListedNameResolvesElsewhere | src/main/java/org/n52/dlr/osmtovector/util/OSMDatasetStore.java:21-23 | as written, the listed file "x-osm-pbf.osm.pbf" is named "x", and "x" resolves to a different file |
| LegacyDatasetStore.SampleName | src/main/java/org/n52/dlr/osmtovector/util/OSMDatasetStore.java:22 | replaceAll strips both the wildcard match "-osm-pbf" and the extension from "x-osm-pbf.osm.pbf" |
| LegacyDatasetStore.DatasetNameFixed | src/main/java/org/n52/dlr/osmtovector/util/OSMDatasetStore.java:21-23 | the intended name: the extension cut off the end once; never longer than the file name |
| LegacyDatasetStore.FixedAgreesOnPlainNames | src/main/java/org/n52/dlr/osmtovector/util/OSMDatasetStore.java:21-23 | the fixed name and the as-written name agree, and both are the base, whenever the base holds no match |
| LegacyDatasetStore.FixedNameResolves | src/main/java/org/n52/dlr/osmtovector/util/OSMDatasetStore.java:21-43 | with the fixed name, every listed file without '/' resolves back to its own path |
| DatasetList.OSMDatasetList.constructor | src/main/java/org/n52/dlr/osmtovector/algorithm/OSMDatasetList.java:51-54 | nothing is published and no directory is configured |
| DatasetList.OSMDatasetList.GetDatasets | src/main/java/org/n52/dlr/osmtovector/algorithm/OSMDatasetList.java:60-62 | "" while nothing is published; a non-empty list of comma-free names is recovered by cutting the output at ',' |
| DatasetList.OSMDatasetList.SetConfiguration | src/main/java/org/n52/dlr/osmtovector/algorithm/OSMDatasetList.java:64-75 | the directory becomes the value of the last entry with its key, or stays as it was when there is none |
| DatasetList.OSMDatasetList.Run | src/main/java/org/n52/dlr/osmtovector/algorithm/OSMDatasetList.java:77-88 | a NullPointerException when no directory is configured, "io" when it cannot be listed, and the list unchanged on both; on success, the store's names without duplicates, and the output splits back into them |
| DatasetList.NameIsScanned | src/main/java/org/n52/dlr/osmtovector/io/OSMDatasetStore.java:55 | no name of a scanned store holds ',' |
| CommandLine.ElementTypeArgs | src/main/java/org/n52/dlr/osmtovector/algorithm/OSMToVector.java:169-179 | only "nodes" and "ways" are accepted; "nodes" adds no flag |
| CommandLine.BuildCommandLine | src/main/java/org/n52/dlr/osmtovector/algorithm/OSMToVector.java:154-206 | the argument vector, or "invalid-args" exactly when the element type is unsupported |
| CommandLine.UntilFormat | src/main/java/org/n52/dlr/osmtovector/algorithm/OSMToVector.java:159-167 | the reader cuts the vector at the first "-f": the two parts rejoin to the whole and the first holds no "-f" |
| CommandLine.UntilFormatStopsAfterTags | src/main/java/org/n52/dlr/osmtovector/algorithm/OSMToVector.java:159-167 | tags without "-f" are recovered whole from before the format flag |
| CommandLine.SplitTagsOfTagArgs | src/main/java/org/n52/dlr/osmtovector/algorithm/OSMToVector.java:159-164 | the tags section, present only for a non-empty tag list, reads back as the tags |
| CommandLine.ParseOptionsOf | src/main/java/org/n52/dlr/osmtovector/algorithm/OSMToVector.java:169-194 | the element-type flags and the filter flag read back as "ways or not" and the filter file |
| CommandLine.ParseTailOf | src/main/java/org/n52/dlr/osmtovector/algorithm/OSMToVector.java:166-206 | from "-f" on, the format, the options and the two paths read back |
| CommandLine.CommandLineRoundTrip | src/main/java/org/n52/dlr/osmtovector/algorithm/OSMToVector.java:154-206 | reading the vector back gives the binary, the "export" layer, the tags, the element type, the filter file and both paths; only a tag equal to "-f" could make it ambiguous |
| Common.Components | src/main/java/org/n52/dlr/osmtovector/algorithm/OSMToVector.java:140-141 | the configured work directory as path components, none empty, none holding '/' |
| Extraction.AbsolutePath | src/main/java/org/n52/dlr/osmtovector/algorithm/OSMToVector.java:199 | the dataset path handed to the tool is absolute: it starts at the root |
| Extraction.AbsolutePathOfNormalForm | src/main/java/org/n52/dlr/osmtovector/algorithm/OSMToVector.java:199 | a path already in absolute normal form is returned unchanged, whatever the working directory |
| Common.ComponentsOfJoin | src/main/java/org/n52/dlr/osmtovector/io/OSMDatasetStore.java:39 | parsing a '/'-separated path keeps its non-empty pieces, in order, and drops exactly the empty ones |
| Common.ParsePathString | src/main/java/org/n52/dlr/osmtovector/io/OSMDatasetStore.java:39 | a path's string, parsed again, gives back the same components, and it is absolute exactly when the path is |
| Extraction.StorePathResolved | src/main/java/org/n52/dlr/osmtovector/algorithm/OSMToVector.java:197-199 | the absolute path of a store entry is the store directory's components and the entry's, under the JVM's working directory unless the store directory is absolute |
| Extraction.EmptyStoreDirectoryIsRelative | src/main/java/org/n52/dlr/osmtovector/io/OSMDatasetStore.java:39 | with the empty store directory the entry "x.osm.pbf" stays relative and resolves to cwd/x.osm.pbf, not to the root |
| Extraction.DoubledSeparatorDropped | src/main/java/org/n52/dlr/osmtovector/io/OSMDatasetStore.java:39 | a store directory given with a trailing '/' yields "/d//x", whose absolute path is "/d/x" |
| Extraction.RelativePathResolved | src/main/java/org/n52/dlr/osmtovector/algorithm/OSMToVector.java:199 | a relative store path "d/x" is resolved against the JVM's working directory, giving cwd/d/x |
| Extraction.ShapefilePath | src/main/java/org/n52/dlr/osmtovector/algorithm/OSMToVector.java:240 | the shapefile lies below the scratch directory |
| Extraction.Host.CreateTempDirectory | src/main/java/org/n52/dlr/osmtovector/algorithm/OSMToVector.java:152 | a fresh directory inside the work directory, recorded; none when creation fails |
| Extraction.Host.WriteFilter | src/main/java/org/n52/dlr/osmtovector/algorithm/OSMToVector.java:189-190 | the filter file is written, and recorded, exactly when the host allows it |
| Extraction.Host.Exec | src/main/java/org/n52/dlr/osmtovector/algorithm/OSMToVector.java:215 | the launch, with its argument vector, environment and working directory, is recorded unless it fails |
| Extraction.Host.WaitFor | src/main/java/org/n52/dlr/osmtovector/algorithm/OSMToVector.java:219 | the process outcome the host dictates |
| Extraction.Host.ReadErrorStream | src/main/java/org/n52/dlr/osmtovector/algorithm/OSMToVector.java:223 | the whole error output of the exited process, read and recorded |
| Extraction.Host.Destroy | src/main/java/org/n52/dlr/osmtovector/algorithm/OSMToVector.java:232 | the release of the process is recorded |
| Extraction.Host.OpenShapefile | src/main/java/org/n52/dlr/osmtovector/algorithm/OSMToVector.java:240-241 | a collection over the given file, not a copy, when it can be opened |
| Extraction.Host.DeleteScratch | src/main/java/org/n52/dlr/osmtovector/algorithm/OSMToVector.java:246-252 | when the scratch directory still exists it is deleted recursively and recorded; otherwise nothing changes |
| Extraction.OSMToVector.constructor | src/main/java/org/n52/dlr/osmtovector/algorithm/OSMToVector.java:61-74 | no tags, no filter, element type "nodes", the default binary, nothing else set |
| Extraction.OSMToVector.SetTag | src/main/java/org/n52/dlr/osmtovector/algorithm/OSMToVector.java:83-85 | the tags are replaced |
| Extraction.OSMToVector.SetSpatialFilter | src/main/java/org/n52/dlr/osmtovector/algorithm/OSMToVector.java:94-96 | the filter geometry is replaced |
| Extraction.OSMToVector.SetElementsToExport | src/main/java/org/n52/dlr/osmtovector/algorithm/OSMToVector.java:106-108 | the element type is replaced |
| Extraction.OSMToVector.SetInputDatasetName | src/main/java/org/n52/dlr/osmtovector/algorithm/OSMToVector.java:117-119 | the dataset name is set |
| Extraction.OSMToVector.GetExportedData | src/main/java/org/n52/dlr/osmtovector/algorithm/OSMToVector.java:125-127 | the collection the last successful run stored, none before any |
| Extraction.OSMToVector.SetConfiguration | src/main/java/org/n52/dlr/osmtovector/algorithm/OSMToVector.java:129-144 | each of the three fields takes the value of the last entry with its key, or keeps its value when there is none |
| Extraction.OSMToVector.Extract | src/main/java/org/n52/dlr/osmtovector/algorithm/OSMToVector.java:154-241 | the try block: the recorded events and the result are exactly those of the specification `Attempt` |
| Extraction.OSMToVector.LeadingArgs | src/main/java/org/n52/dlr/osmtovector/algorithm/OSMToVector.java:154-167 | the arguments built up to the format: binary, "-l export", "-t" and the tags when there are any, "-f ESRI Shapefile" |
| Extraction.OSMToVector.ResolveInput | src/main/java/org/n52/dlr/osmtovector/algorithm/OSMToVector.java:196-203 | the path a freshly scanned store gives the dataset, made absolute against the JVM's working directory; "io" when the store cannot be opened or the dataset is not found |
| Extraction.OSMToVector.RunTool | src/main/java/org/n52/dlr/osmtovector/algorithm/OSMToVector.java:208-241 | launch, wait, release and open: events and result are exactly those of the specification `Launch` |
| Extraction.OSMToVector.Run | src/main/java/org/n52/dlr/osmtovector/algorithm/OSMToVector.java:146-253 | a run records exactly the events of `Execute` and ends with its result; features change only on success; no input field changes; the scratch directory is deleted recursively when it still exists |
| Extraction.OSMToVector.RunConfigured | src/main/java/org/n52/dlr/osmtovector/algorithm/OSMToVector.java:150-252 | the run after configuration: creation, the try block, and the finally block's deletion, as `Execute` specifies |
| Extraction.OSMToVector.RunInWorkDirectory | src/main/java/org/n52/dlr/osmtovector/algorithm/OSMToVector.java:150-252 | with a work directory set: a failed creation records nothing and fails with "internal"; otherwise the creation, the try block and the finally block, as `Execute` specifies |
| Extraction.OSMToVector.AttemptAndCleanUp | src/main/java/org/n52/dlr/osmtovector/algorithm/OSMToVector.java:154-252 | once the scratch directory exists: the events and result of `Attempt`, then its recursive deletion when it still exists, whichever way the try block ended; features change only on success |
| Extraction.ExecuteWithScratch | src/main/java/org/n52/dlr/osmtovector/algorithm/OSMToVector.java:150-252 | once the scratch directory exists, a run is its creation, the attempt, then its deletion if it still exists |
| Extraction.AttemptShape | src/main/java/org/n52/dlr/osmtovector/algorithm/OSMToVector.java:169-215 | the try block either stops before the launch, failing with at most the filter file written, or writes the filter when there is one and then launches with the inputs' argument vector |
| Extraction.LaunchClassified | src/main/java/org/n52/dlr/osmtovector/algorithm/OSMToVector.java:215-241 | from the launch on: exactly one launch, with that vector, an empty environment and the scratch directory, unless `exec` fails; the process is released exactly when launched; anything but exit code 0 fails with "internal"; a non-zero exit reads the error output |
| Extraction.AttemptEventsAreInner | src/main/java/org/n52/dlr/osmtovector/algorithm/OSMToVector.java:154-241 | the try block neither creates nor deletes a scratch directory |
| Extraction.AttemptClassified | src/main/java/org/n52/dlr/osmtovector/algorithm/OSMToVector.java:169-241 | the launch facts lifted to the whole try block: a launch happens only when every check passed, with the inputs' vector; release exactly after launch; the failing outcomes give "internal" |
| Extraction.ScratchDirectoryLifecycle | src/main/java/org/n52/dlr/osmtovector/algorithm/OSMToVector.java:150-152 | at most one scratch directory per run, created first; without a work directory, or when creation fails, nothing happens and the run fails; otherwise its deletion, when it still exists, is the last event on every path |
| Extraction.InvalidElementTypeRejected | src/main/java/org/n52/dlr/osmtovector/algorithm/OSMToVector.java:169-179 | an element type other than "nodes" or "ways" fails with "invalid-args" whatever the filter and the dataset; nothing is written or launched and the scratch directory is still deleted |
| Extraction.InvalidFilterRejected | src/main/java/org/n52/dlr/osmtovector/algorithm/OSMToVector.java:182-190 | with a valid element type, a filter that is neither Polygon nor MultiPolygon fails with "invalid-args" before any file is written or process launched |
| Extraction.UnknownDatasetRejected | src/main/java/org/n52/dlr/osmtovector/algorithm/OSMToVector.java:196-203 | once both checks pass, a dataset that cannot be resolved fails with "io" and no process is launched |
| Extraction.InputIsAScannedFile | src/main/java/org/n52/dlr/osmtovector/algorithm/OSMToVector.java:197-199 | the tool's input is the absolute form of an existing file the store's scan found, never a path built from the caller's name: the store directory's components and the entry, under the JVM's working directory unless the store directory is absolute |
| Extraction.LaunchedAsConfigured | src/main/java/org/n52/dlr/osmtovector/algorithm/OSMToVector.java:206-215 | every launch uses the inputs' argument vector, with the filter and the output inside the scratch directory, an empty environment, and the scratch directory as working directory |
| Extraction.ProcessOutcomeClassified | src/main/java/org/n52/dlr/osmtovector/algorithm/OSMToVector.java:215-245 | the process is released exactly when it was launched; an interrupted wait fails with "internal"; a non-zero exit reads the error output and fails with "internal"; a launch failure is "internal" and releases nothing |
| Extraction.ResultOnlyAfterCleanExit | src/main/java/org/n52/dlr/osmtovector/algorithm/OSMToVector.java:219-241 | a result exists only after exit code 0; it is the collection over tmp/out/export.shp; the run's events are, in order, the creation, the filter file, the launch, the release, the opening of the shapefile and the cleanup |
| Extraction.ResultOutlivesItsFile | src/main/java/org/n52/dlr/osmtovector/algorithm/OSMToVector.java:241-250 | the collection handed back is not a copy: once the scratch directory is deleted completely, its shapefile is gone |
| ProcessRepository.ActiveNames | src/main/java/org/n52/dlr/osmtovector/OSMToVectorProcessRepository.java:119-129 | a name is listed exactly when some active entry carries it; the list is no longer than the entries |
| ProcessRepository.Loaded | src/main/java/org/n52/dlr/osmtovector/OSMToVectorProcessRepository.java:72-77 | the instance belongs to the requested class |
| ProcessRepository.RegisteredKeys | src/main/java/org/n52/dlr/osmtovector/OSMToVectorProcessRepository.java:58-63 | registering the active entries in turn stores exactly the active names whose class loads and describes itself (and, under the intended check, has a description valid for some supported version), each with its own instance |
| ProcessRepository.NoneValidAsWritten | src/main/java/org/n52/dlr/osmtovector/OSMToVectorProcessRepository.java:85-90 | as written, the "no description valid" flag is false whatever the versions |
| ProcessRepository.NoneValid | src/main/java/org/n52/dlr/osmtovector/OSMToVectorProcessRepository.java:85-90 | the intended flag holds exactly when the description is valid for none of the supported versions |
| ProcessRepository.InvalidDescriptionPasses | src/main/java/org/n52/dlr/osmtovector/OSMToVectorProcessRepository.java:85-95 | a description valid for no version is rejected by the intended check but not by the check as written |
| ProcessRepository.LoadAlgorithmAsWritten | src/main/java/org/n52/dlr/osmtovector/OSMToVectorProcessRepository.java:69-97 | as written, loading succeeds exactly when the class exists and is instantiated or wrapped; the description check never rejects |
| ProcessRepository.ConfigModule.constructor | src/main/java/org/n52/dlr/osmtovector/modules/OSMToVectorProcessRepositoryCM.java:44-45 | the module holds its active flag and its algorithm entries |
| ProcessRepository.OSMToVectorProcessRepository.constructor | src/main/java/org/n52/dlr/osmtovector/OSMToVectorProcessRepository.java:47-67 | with an active module every active entry is registered, in entry order, through the loader the repository is built with (as written or with the intended check); with an inactive one nothing is; both maps stay consistent |
| ProcessRepository.OSMToVectorProcessRepository.LoadAlgorithm | src/main/java/org/n52/dlr/osmtovector/OSMToVectorProcessRepository.java:69-97 | the corrected loader, used by a repository built with the intended check: it succeeds exactly when the class loads and its description is valid for some supported version |
| ProcessRepository.OSMToVectorProcessRepository.AddAlgorithm | src/main/java/org/n52/dlr/osmtovector/OSMToVectorProcessRepository.java:99-117 | true, and both maps gain the name, exactly for a String whose class loads through the repository's loader (as written, or with the intended check) and describes itself; a non-String or any failure returns false and changes neither map |
| ProcessRepository.OSMToVectorProcessRepository.GetAlgorithmNames | src/main/java/org/n52/dlr/osmtovector/OSMToVectorProcessRepository.java:119-129 | the names of the active entries in configuration order, read when called |
| ProcessRepository.OSMToVectorProcessRepository.ContainsAlgorithm | src/main/java/org/n52/dlr/osmtovector/OSMToVectorProcessRepository.java:147-150 | true exactly when some active entry names the class |
| ProcessRepository.OSMToVectorProcessRepository.GetAlgorithm | src/main/java/org/n52/dlr/osmtovector/OSMToVectorProcessRepository.java:131-137 | the registered instance of a class that is currently listed; null for one that is not, even when registered |
| ProcessRepository.OSMToVectorProcessRepository.GetProcessDescription | src/main/java/org/n52/dlr/osmtovector/OSMToVectorProcessRepository.java:139-145 | the stored description of a class that is currently listed, which is its own; null otherwise |
| ProcessRepository.ServedAfterConstruction | src/main/java/org/n52/dlr/osmtovector/OSMToVectorProcessRepository.java:58-66 | right after construction a listed class is served exactly when the module is active and the class registers under the loader in use; an inactive module still lists its entries |
| ProcessRepository.AsWrittenRegistersEveryDescribable | src/main/java/org/n52/dlr/osmtovector/OSMToVectorProcessRepository.java:58-97 | as written, every active class that loads and describes itself is registered, whatever versions its description is valid for |
| ProcessRepository.CheckRefusesOnlyInvalid | src/main/java/org/n52/dlr/osmtovector/OSMToVectorProcessRepository.java:58-97 | the intended check registers a subset of what the source as written registers; the classes it drops are exactly those whose description is valid for no supported version |

## Left out

- **The external tool.** The subprocess and the GeoTools shapefile reader are outcome values of the `World`. So are the file writes `createTempDirectory`, `exists`, `isFile`, `listFiles` and the directory stream. The content of the extracted features is not modelled.
- **The filter file.** GeoJSONFileCreator is not part of this model. Writing the filter is one event, with a flag for its IOException.
- **Logging and timing.** Logging, and the wall-clock timing of the subprocess, only feed log messages.
- **Configuration lookup.** The WPS configuration lookup (`WPSConfig.getInstance()`) is not modelled. Each process receives the configuration entries as a parameter.
- **Extraction.OSMToVector.constructor.** The tags default to the empty list and the element type to "nodes", which is the input's declared default. In the source both fields stay null until the framework sets them. A run with null tags or a null element type would throw a NullPointerException; that run is not modelled.
- **Unchecked exceptions.** An unset dataset name is treated as an unknown dataset ("io"). An unset store or work directory gives a NullPointerException fault. No other unchecked exception (ClassCastException, SecurityException) is modelled.
- **Extraction.Absolute.** It takes the work directory to be an absolute path. Relative paths, `..` components and path normalisation by `File` are not modelled.
- **Extraction.AbsolutePath.** It models the Unix path parser and `toAbsolutePath` only: symbolic links are not resolved, and "." and ".." are kept, as in the source.
- **Extraction.Host.Exec.** A launch failure ends the run with "internal" before the process is destroyed. In the source, an IOException thrown by `exec` is caught at the outer handler.
- **DatasetStore.Store.GetDatasetList.** It promises the key set without duplicates, but not HashMap's iteration order, which Java leaves unspecified.
- **String decoding.** `IOUtil.ReadInputStreamIntoString` works on characters: charset decoding by the Scanner is not modelled.
- **Unused older store.** The older store `util/OSMDatasetStore` and `util/FileUtil` are modelled, but no process uses them.
- **ProcessRepository.OSMToVectorProcessRepository.LoadAlgorithm.** It carries the corrected description check (see Findings). The repository has a `descriptionChecked` flag: false gives the source as written, which loads through `LoadAlgorithmAsWritten`; true loads through this method.
- **Reflection.** A class is a `ClassInfo` value. It says whether the class implements IAlgorithm, carries the annotation, can be instantiated and describes itself, and for which versions its description is valid. Class loading, proxies and `newInstance` are not modelled further.
- **Shutdown.** `shutdown` does nothing in the source and is not modelled.
- **The configuration module's framework metadata** (titles, descriptions, `isActive` setters) is not modelled.
- **Empty dataset names.** A dataset name may be empty: the file ".osm.pbf" is listed as "". So `GetDatasets` promises the comma round trip, but not non-empty names.

## Findings

| source | as written | input that shows it | evidently intended | confidence | as-written member | corrected member |
|---|---|---|---|---|---|---|
| src/main/java/org/n52/dlr/osmtovector/util/OSMDatasetStore.java:21-23 | `replaceAll(".osm.pbf", "")` treats each '.' as a regex wildcard and removes every match anywhere in the file name | the listed file "x-osm-pbf.osm.pbf" is named "x"; `getPathForDataset("x")` then looks for "x.osm.pbf" | strip the literal extension from the end once, so every listed name resolves back to its file | not executed | LegacyDatasetStore.ListedNameResolvesElsewhere | LegacyDatasetStore.FixedNameResolves |
| src/main/java/org/n52/dlr/osmtovector/OSMToVectorProcessRepository.java:85-95 | `isNoProcessDescriptionValid` starts false and is only and-ed, so it stays false and the "ProcessDescription Not Valid" rejection is unreachable | a class whose description is valid for neither "1.0.0" nor "2.0.0" is loaded and registered (`InvalidDescriptionPasses`) | start the flag at true, so that a class valid for no supported version is rejected | not executed | ProcessRepository.LoadAlgorithmAsWritten | ProcessRepository.OSMToVectorProcessRepository.LoadAlgorithm |
