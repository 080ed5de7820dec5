/**
 * The OSMDatasetList process: lists the datasets of the configured store
 * directory and publishes them as one comma-separated literal.
 */
module DatasetList {
  import opened Common
  import opened Configuration
  import DatasetStore

  class OSMDatasetList {
    /** The names published by the last successful run. */
    var providedDatasets: seq<string>
    /** None stands for the null the field holds until configured. */
    var osmStoreDirectory: Option<string>

    constructor ()
      ensures providedDatasets == [] && osmStoreDirectory == None
    {
      providedDatasets := [];
      osmStoreDirectory := None;
    }

    /**
     * The "datasets" output: the names joined with ','. Nothing published
     * gives the empty literal; a non-empty list of comma-free names is
     * recovered by cutting the literal at every ','.
     */
    function GetDatasets(): (r: string)
      reads this
      ensures providedDatasets == [] ==> r == ""
      ensures providedDatasets != [] && (forall i :: 0 <= i < |providedDatasets| ==> ',' !in providedDatasets[i])
        ==> Split(r, ',') == providedDatasets
    {
      var r := Join(",", providedDatasets);
      if providedDatasets != [] && forall i :: 0 <= i < |providedDatasets| ==> ',' !in providedDatasets[i] then
        SplitJoin(providedDatasets, ',');
        r
      else r
    }

    /** setConfiguration: the store directory is the value of the last entry with its key. */
    method SetConfiguration(entries: seq<Entry>)
      modifies this`osmStoreDirectory
      ensures LastValue(entries, OsmStoreDirectoryKey).Some? ==> osmStoreDirectory == LastValue(entries, OsmStoreDirectoryKey)
      ensures LastValue(entries, OsmStoreDirectoryKey).None? ==> osmStoreDirectory == old(osmStoreDirectory)
    {
      for i := 0 to |entries|
        invariant LastValue(entries[..i], OsmStoreDirectoryKey).Some? ==> osmStoreDirectory == LastValue(entries[..i], OsmStoreDirectoryKey)
        invariant LastValue(entries[..i], OsmStoreDirectoryKey).None? ==> osmStoreDirectory == old(osmStoreDirectory)
      {
        assert entries[..i + 1][..i] == entries[..i];
        if entries[i].key == OsmStoreDirectoryKey {
          osmStoreDirectory := Some(entries[i].value);
        }
      }
      assert entries[..|entries|] == entries;
    }

    /**
     * run: configure, open a store on the directory (listing None: the
     * directory stream cannot be opened) and publish its names. A failure
     * leaves the published list as it was: "io" when the store cannot be
     * opened, a NullPointerException when no directory is configured.
     */
    method Run(entries: seq<Entry>, listing: Option<seq<string>>) returns (r: Result<(), Fault>)
      modifies this
      ensures LastValue(entries, OsmStoreDirectoryKey).Some? ==> osmStoreDirectory == LastValue(entries, OsmStoreDirectoryKey)
      ensures LastValue(entries, OsmStoreDirectoryKey).None? ==> osmStoreDirectory == old(osmStoreDirectory)
      ensures r.Failure? ==> providedDatasets == old(providedDatasets)
      ensures r == Failure(NullPointerException) <==> osmStoreDirectory.None?
      ensures r == Failure(Report(Io)) <==> osmStoreDirectory.Some? && listing.None?
      ensures r.Success? <==> osmStoreDirectory.Some? && listing.Some?
      ensures r.Success? ==>
        var scanned := DatasetStore.Scanned(osmStoreDirectory.value, listing.value);
        && (forall n :: n in providedDatasets <==> n in scanned)
        && (forall i, j :: 0 <= i < j < |providedDatasets| ==> providedDatasets[i] != providedDatasets[j])
        && |providedDatasets| == |scanned|
        && (providedDatasets != [] ==> Split(GetDatasets(), ',') == providedDatasets)
    {
      SetConfiguration(entries);
      if osmStoreDirectory.None? {
        return Failure(NullPointerException);
      }
      if listing.None? {
        return Failure(Report(Io));
      }
      var store := new DatasetStore.Store(osmStoreDirectory.value, listing.value);
      var names := store.GetDatasetList();
      providedDatasets := names;
      forall i | 0 <= i < |providedDatasets|
        ensures ',' !in providedDatasets[i]
      {
        NameIsScanned(osmStoreDirectory.value, listing.value, providedDatasets[i]);
      }
      return Success(());
    }
  }

  /** Every key of a scan is a dataset name, so none holds a ','. */
  lemma NameIsScanned(directory: string, listing: seq<string>, name: string)
    requires name in DatasetStore.Scanned(directory, listing)
    ensures ',' !in name
  {
    DatasetStore.ScanFilesLastEntry(directory, listing);
    var i :| 0 <= i < |listing| && DatasetStore.MatchesGlob(listing[i]) && DatasetStore.DatasetName(listing[i]) == name;
  }
}
