/**
 * The repository's configuration module: the keys of its three entries and
 * how a process reads them. Each process walks the entry list and keeps, for
 * every key it knows, the value of the last entry carrying that key.
 */
module Configuration {
  import opened Common

  /** A configuration entry: key and (string) value. */
  datatype Entry = Entry(key: string, value: string)

  const OsmStoreDirectoryKey: string := "osm_store_directory"
  const OsmExtractBinaryKey: string := "osm_extract_binary"
  const WorkDirectoryKey: string := "work_directory"

  /** The value of the last entry carrying key, None when no entry does. */
  function LastValue(entries: seq<Entry>, key: string): (v: Option<string>)
    decreases |entries|
  {
    if entries == [] then None
    else if entries[|entries| - 1].key == key then Some(entries[|entries| - 1].value)
    else LastValue(entries[..|entries| - 1], key)
  }

  /** Entry i is the last one carrying key. */
  ghost predicate LastWithKey(entries: seq<Entry>, key: string, i: int)
  {
    && 0 <= i < |entries|
    && entries[i].key == key
    && forall j :: i < j < |entries| ==> entries[j].key != key
  }

  /** None exactly when no entry carries the key; otherwise the last such entry's value. */
  lemma LastValueIsLastEntry(entries: seq<Entry>, key: string)
    ensures LastValue(entries, key).None? <==> forall i :: 0 <= i < |entries| ==> entries[i].key != key
    ensures forall i :: LastWithKey(entries, key, i) ==> LastValue(entries, key) == Some(entries[i].value)
  {
    LastValueNone(entries, key);
    forall i | LastWithKey(entries, key, i)
      ensures LastValue(entries, key) == Some(entries[i].value)
    {
      LastValueAt(entries, key, i);
    }
  }

  lemma {:induction false} LastValueNone(entries: seq<Entry>, key: string)
    ensures LastValue(entries, key).None? <==> forall i :: 0 <= i < |entries| ==> entries[i].key != key
    decreases |entries|
  {
    if entries != [] {
      var n := |entries| - 1;
      var init := entries[..n];
      LastValueNone(init, key);
      if entries[n].key != key {
        assert LastValue(entries, key) == LastValue(init, key);
        assert forall i :: 0 <= i < n ==> init[i] == entries[i];
      }
    }
  }

  lemma {:induction false} LastValueAt(entries: seq<Entry>, key: string, i: int)
    requires LastWithKey(entries, key, i)
    ensures LastValue(entries, key) == Some(entries[i].value)
    decreases |entries|
  {
    var n := |entries| - 1;
    if i < n {
      var init := entries[..n];
      assert entries[n].key != key;
      assert LastWithKey(init, key, i) by {
        forall j | i < j < |init| ensures init[j].key != key {
          assert init[j] == entries[j];
        }
      }
      LastValueAt(init, key, i);
    }
  }

  /** The entries the configuration module declares, each with its default value. */
  function DefaultEntries(tmpDirectory: string): (entries: seq<Entry>)
    ensures |entries| == 3
  {
    [ Entry(OsmStoreDirectoryKey, "/tmp"),
      Entry(OsmExtractBinaryKey, "osm_extract.py"),
      Entry(WorkDirectoryKey, tmpDirectory) ]
  }

  /** With the declared entries every key is found, so no configured field stays unset. */
  lemma DefaultsConfigureEverything(tmpDirectory: string)
    ensures LastValue(DefaultEntries(tmpDirectory), OsmStoreDirectoryKey) == Some("/tmp")
    ensures LastValue(DefaultEntries(tmpDirectory), OsmExtractBinaryKey) == Some("osm_extract.py")
    ensures LastValue(DefaultEntries(tmpDirectory), WorkDirectoryKey) == Some(tmpDirectory)
  {
    var es := DefaultEntries(tmpDirectory);
    LastValueIsLastEntry(es, OsmStoreDirectoryKey);
    LastValueIsLastEntry(es, OsmExtractBinaryKey);
    LastValueIsLastEntry(es, WorkDirectoryKey);
    assert LastWithKey(es, OsmStoreDirectoryKey, 0);
    assert LastWithKey(es, OsmExtractBinaryKey, 1);
    assert LastWithKey(es, WorkDirectoryKey, 2);
  }
}
