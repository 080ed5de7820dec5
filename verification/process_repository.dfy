/**
 * OSMToVectorProcessRepository: the registry through which the WPS server
 * finds the repository's processes. Loading a class is reflection, so the
 * class loader is a map from class name to what reflection would find.
 */
module ProcessRepository {
  import opened Common

  /** A process description, as far as the repository handles it: stored and handed out. */
  datatype ProcessDescription = ProcessDescription(identifier: string)

  /** What reflection finds in a loadable class. */
  datatype ClassInfo = ClassInfo(
    implementsAlgorithm: bool,          // assignable to IAlgorithm
    annotated: bool,                    // carries the Algorithm annotation
    instantiable: bool,                 // newInstance() succeeds
    validVersions: set<string>,         // versions whose process description is valid
    description: Option<ProcessDescription>)  // None: getDescription() throws

  /** An algorithm instance; proxied when the class is only annotated and gets wrapped. */
  datatype Algorithm = Algorithm(className: string, proxied: bool, info: ClassInfo)

  /** The argument of addAlgorithm, which accepts any Object. */
  datatype ProcessId = StringId(name: string) | OtherObject

  datatype AlgorithmEntry = AlgorithmEntry(algorithm: string, active: bool)

  /** The configuration module the repository is bound to; the admin can change it later. */
  class ConfigModule {
    var active: bool
    var algorithmEntries: seq<AlgorithmEntry>

    constructor (active: bool, algorithmEntries: seq<AlgorithmEntry>)
      ensures this.active == active && this.algorithmEntries == algorithmEntries
    {
      this.active := active;
      this.algorithmEntries := algorithmEntries;
    }
  }

  /** Entry i is active and names n. */
  ghost predicate ActiveAt(entries: seq<AlgorithmEntry>, i: int, n: string)
  {
    0 <= i < |entries| && entries[i].active && entries[i].algorithm == n
  }

  /** getAlgorithmNames: the names of the active entries, in entry order. */
  function ActiveNames(entries: seq<AlgorithmEntry>): (names: seq<string>)
    ensures |names| <= |entries|
    ensures forall n :: n in names <==> exists i :: ActiveAt(entries, i, n)
    decreases |entries|
  {
    if entries == [] then []
    else
      var init := entries[..|entries| - 1];
      var e := entries[|entries| - 1];
      var names := ActiveNames(init) + if e.active then [e.algorithm] else [];
      assert forall n, i :: ActiveAt(init, i, n) ==> ActiveAt(entries, i, n);
      assert forall n, i :: ActiveAt(entries, i, n) ==> ActiveAt(init, i, n) || (i == |init| && e.active && n == e.algorithm);
      assert e.active ==> ActiveAt(entries, |init|, e.algorithm);
      names
  }

  /** loadAlgorithm gets an instance: the class is instantiated, or wrapped when only annotated. */
  predicate Loadable(info: ClassInfo)
  {
    if info.implementsAlgorithm then info.instantiable else info.annotated
  }

  /**
   * addAlgorithm succeeds: the class loads, its description can be read and,
   * when the description check is the intended one (checked), the
   * description is valid for some supported version. As written (not
   * checked) that check never rejects.
   */
  predicate Registrable(classes: map<string, ClassInfo>, versions: seq<string>, checked: bool, name: string)
  {
    && name in classes
    && Loadable(classes[name])
    && (checked ==> !NoneValid(versions, classes[name].validVersions))
    && classes[name].description.Some?
  }

  /** The instance loadAlgorithm returns. */
  function Loaded(classes: map<string, ClassInfo>, name: string): (a: Algorithm)
    requires name in classes
    ensures a.className == name && a.info == classes[name]
  {
    Algorithm(name, !classes[name].implementsAlgorithm, classes[name])
  }

  /** The algorithm map after addAlgorithm was called for each active entry in turn. */
  function Registered(classes: map<string, ClassInfo>, versions: seq<string>, checked: bool,
                      entries: seq<AlgorithmEntry>): map<string, Algorithm>
    decreases |entries|
  {
    if entries == [] then map[]
    else
      var m := Registered(classes, versions, checked, entries[..|entries| - 1]);
      var e := entries[|entries| - 1];
      if e.active && Registrable(classes, versions, checked, e.algorithm) then m[e.algorithm := Loaded(classes, e.algorithm)] else m
  }

  /** Exactly the registrable active names are registered, each with its own loaded instance. */
  lemma {:induction false} RegisteredKeys(classes: map<string, ClassInfo>, versions: seq<string>, checked: bool,
                                          entries: seq<AlgorithmEntry>)
    ensures forall n :: n in Registered(classes, versions, checked, entries) <==>
      n in ActiveNames(entries) && Registrable(classes, versions, checked, n)
    ensures forall n :: n in Registered(classes, versions, checked, entries) ==>
      n in classes && Registered(classes, versions, checked, entries)[n] == Loaded(classes, n)
    decreases |entries|
  {
    if entries != [] {
      RegisteredKeys(classes, versions, checked, entries[..|entries| - 1]);
      assert ActiveNames(entries) == ActiveNames(entries[..|entries| - 1])
        + if entries[|entries| - 1].active then [entries[|entries| - 1].algorithm] else [];
    }
  }

  /**
   * The rejection loop as written: the flag starts false and is only ever
   * and-ed, so it is false after every prefix of the supported versions.
   */
  function NoneValidAsWritten(versions: seq<string>, valid: set<string>): (flag: bool)
    ensures !flag
    decreases |versions|
  {
    if versions == [] then false
    else
      var invalid := versions[|versions| - 1] !in valid;
      NoneValidAsWritten(versions[..|versions| - 1], valid) && invalid
  }

  /** The rejection loop as intended: the flag starts true. */
  function NoneValid(versions: seq<string>, valid: set<string>): (flag: bool)
    ensures flag <==> forall k :: 0 <= k < |versions| ==> versions[k] !in valid
    decreases |versions|
  {
    if versions == [] then true
    else
      var init := versions[..|versions| - 1];
      assert forall k :: 0 <= k < |init| ==> init[k] == versions[k];
      NoneValid(init, valid) && versions[|versions| - 1] !in valid
  }

  /** A class whose description is valid for no supported version passes the check as written. */
  lemma InvalidDescriptionPasses()
    ensures !NoneValidAsWritten(["1.0.0", "2.0.0"], {})
    ensures NoneValid(["1.0.0", "2.0.0"], {})
  {
  }

  /**
   * loadAlgorithm as written: loading fails only for a class that is
   * missing, cannot be instantiated, or neither implements IAlgorithm nor
   * carries the annotation. The description check never rejects.
   */
  method LoadAlgorithmAsWritten(classes: map<string, ClassInfo>, supportedVersions: seq<string>, className: string)
    returns (r: Result<Algorithm, string>)
    ensures r.Success? <==> className in classes && Loadable(classes[className])
    ensures r.Success? ==> r.value == Loaded(classes, className)
  {
    if className !in classes {
      return Failure("class not found: " + className);
    }
    var info := classes[className];
    if info.implementsAlgorithm && !info.instantiable {
      return Failure("cannot instantiate " + className);
    } else if !info.implementsAlgorithm && !info.annotated {
      return Failure("Could not load algorithm " + className + " does not implement IAlgorithm or have a Algorithm annotation.");
    }
    var isNoProcessDescriptionValid := false;
    for i := 0 to |supportedVersions|
      invariant isNoProcessDescriptionValid == NoneValidAsWritten(supportedVersions[..i], info.validVersions)
    {
      assert supportedVersions[..i + 1][..i] == supportedVersions[..i];
      var invalid := supportedVersions[i] !in info.validVersions;
      isNoProcessDescriptionValid := isNoProcessDescriptionValid && invalid;
    }
    if isNoProcessDescriptionValid {
      return Failure("Could not load algorithm " + className + ". ProcessDescription Not Valid.");
    }
    return Success(Loaded(classes, className));
  }

  class OSMToVectorProcessRepository {
    var algorithmMap: map<string, Algorithm>
    var processDescriptionMap: map<string, ProcessDescription>
    const cm: ConfigModule
    /** The class loader: what loading each known class name finds. */
    const classes: map<string, ClassInfo>
    /** WPSConfig.SUPPORTED_VERSIONS. */
    const supportedVersions: seq<string>
    /**
     * Which loadAlgorithm the repository uses: false, the one as written,
     * whose description check never rejects; true, the intended check.
     */
    const descriptionChecked: bool

    /** Both maps hold the same names, each with its own instance and that instance's description. */
    ghost predicate Valid()
      reads this
    {
      && processDescriptionMap.Keys == algorithmMap.Keys
      && forall n :: n in algorithmMap ==>
           && n in classes
           && algorithmMap[n] == Loaded(classes, n)
           && classes[n].description == Some(processDescriptionMap[n])
    }

    /**
     * The constructor registers every active entry when the module is active,
     * in entry order, and nothing at all when it is inactive.
     */
    constructor (cm: ConfigModule, classes: map<string, ClassInfo>, supportedVersions: seq<string>, descriptionChecked: bool)
      ensures this.cm == cm && this.classes == classes && this.supportedVersions == supportedVersions
      ensures this.descriptionChecked == descriptionChecked
      ensures Valid()
      ensures algorithmMap == if cm.active then Registered(classes, supportedVersions, descriptionChecked, cm.algorithmEntries) else map[]
    {
      algorithmMap := map[];
      processDescriptionMap := map[];
      this.cm := cm;
      this.classes := classes;
      this.supportedVersions := supportedVersions;
      this.descriptionChecked := descriptionChecked;
      new;
      if cm.active {
        var entries := cm.algorithmEntries;
        for i := 0 to |entries|
          invariant Valid()
          invariant algorithmMap == Registered(classes, supportedVersions, descriptionChecked, entries[..i])
        {
          assert entries[..i + 1][..i] == entries[..i];
          if entries[i].active {
            var added := AddAlgorithm(StringId(entries[i].algorithm));
          }
        }
        assert entries[..|entries|] == entries;
      }
    }

    /**
     * loadAlgorithm with the description check as intended: besides a class
     * that is missing, cannot be instantiated, or neither implements
     * IAlgorithm nor carries the annotation, it refuses a class whose process
     * description is valid for none of the supported versions.
     */
    method LoadAlgorithm(className: string) returns (r: Result<Algorithm, string>)
      ensures r.Success? <==>
        && className in classes
        && Loadable(classes[className])
        && exists k :: 0 <= k < |supportedVersions| && supportedVersions[k] in classes[className].validVersions
      ensures r.Success? ==> r.value == Loaded(classes, className)
    {
      if className !in classes {
        return Failure("class not found: " + className);
      }
      var info := classes[className];
      if info.implementsAlgorithm && !info.instantiable {
        return Failure("cannot instantiate " + className);
      } else if !info.implementsAlgorithm && !info.annotated {
        return Failure("Could not load algorithm " + className + " does not implement IAlgorithm or have a Algorithm annotation.");
      }
      var isNoProcessDescriptionValid := true;
      for i := 0 to |supportedVersions|
        invariant isNoProcessDescriptionValid == NoneValid(supportedVersions[..i], info.validVersions)
      {
        assert supportedVersions[..i + 1][..i] == supportedVersions[..i];
        isNoProcessDescriptionValid := isNoProcessDescriptionValid && supportedVersions[i] !in info.validVersions;
      }
      assert supportedVersions[..|supportedVersions|] == supportedVersions;
      if isNoProcessDescriptionValid {
        return Failure("Could not load algorithm " + className + ". ProcessDescription Not Valid.");
      }
      return Success(Loaded(classes, className));
    }

    /**
     * addAlgorithm: true, and both maps gain the name, exactly when the id is
     * a String whose class loads (with the repository's description check)
     * and whose description can be read; any other outcome changes nothing.
     */
    method AddAlgorithm(processId: ProcessId) returns (added: bool)
      requires Valid()
      modifies this`algorithmMap, this`processDescriptionMap
      ensures Valid()
      ensures added <==> processId.StringId? && Registrable(classes, supportedVersions, descriptionChecked, processId.name)
      ensures added ==> algorithmMap == old(algorithmMap)[processId.name := Loaded(classes, processId.name)]
      ensures !added ==> algorithmMap == old(algorithmMap) && processDescriptionMap == old(processDescriptionMap)
    {
      if processId.OtherObject? {
        return false;
      }
      var name := processId.name;
      var r;
      if descriptionChecked {
        r := LoadAlgorithm(name);
      } else {
        r := LoadAlgorithmAsWritten(classes, supportedVersions, name);
      }
      if r.Failure? || r.value.info.description.None? {
        return false;
      }
      processDescriptionMap := processDescriptionMap[name := r.value.info.description.value];
      algorithmMap := algorithmMap[name := r.value];
      return true;
    }

    /** getAlgorithmNames: read from the module's entries at call time; the module's own flag is not consulted. */
    method GetAlgorithmNames() returns (names: seq<string>)
      ensures names == ActiveNames(cm.algorithmEntries)
    {
      names := [];
      var entries := cm.algorithmEntries;
      for i := 0 to |entries|
        invariant names == ActiveNames(entries[..i])
      {
        assert entries[..i + 1][..i] == entries[..i];
        if entries[i].active {
          names := names + [entries[i].algorithm];
        }
      }
      assert entries[..|entries|] == entries;
    }

    /** containsAlgorithm: some active entry names the class. */
    method ContainsAlgorithm(className: string) returns (b: bool)
      ensures b <==> exists i :: ActiveAt(cm.algorithmEntries, i, className)
    {
      var names := GetAlgorithmNames();
      b := className in names;
    }

    /** getAlgorithm: the registered instance of a listed class; None (null) otherwise. */
    method GetAlgorithm(className: string) returns (a: Option<Algorithm>)
      requires Valid()
      ensures a.Some? <==> className in ActiveNames(cm.algorithmEntries) && className in algorithmMap
      ensures a.Some? ==> a.value == Loaded(classes, className)
    {
      var names := GetAlgorithmNames();
      if className in names && className in algorithmMap {
        return Some(algorithmMap[className]);
      }
      return None;
    }

    /** getProcessDescription: the stored description of a listed class; None (null) otherwise. */
    method GetProcessDescription(className: string) returns (d: Option<ProcessDescription>)
      requires Valid()
      ensures d.Some? <==> className in ActiveNames(cm.algorithmEntries) && className in algorithmMap
      ensures d.Some? ==> className in classes && classes[className].description == d
    {
      var names := GetAlgorithmNames();
      if className in names && className in processDescriptionMap {
        return Some(processDescriptionMap[className]);
      }
      return None;
    }
  }

  /**
   * Right after construction, a listed class is served exactly when it is
   * registrable and the module is active: an inactive module still lists its
   * active entries, yet hands out no instance for them.
   */
  lemma ServedAfterConstruction(classes: map<string, ClassInfo>, versions: seq<string>, checked: bool, active: bool,
                                 entries: seq<AlgorithmEntry>, n: string)
    ensures var algorithmMap := if active then Registered(classes, versions, checked, entries) else map[];
      n in ActiveNames(entries) && n in algorithmMap <==> active && n in ActiveNames(entries) && Registrable(classes, versions, checked, n)
  {
    RegisteredKeys(classes, versions, checked, entries);
  }

  /**
   * As written, the repository registers every active class that loads and
   * describes itself, whether or not its description is valid for a
   * supported version.
   */
  lemma AsWrittenRegistersEveryDescribable(classes: map<string, ClassInfo>, versions: seq<string>,
                                           entries: seq<AlgorithmEntry>, n: string)
    requires n in ActiveNames(entries) && n in classes
    requires Loadable(classes[n]) && classes[n].description.Some?
    ensures n in Registered(classes, versions, false, entries)
  {
    RegisteredKeys(classes, versions, false, entries);
  }

  /**
   * The intended check registers a subset of what the repository as written
   * registers, and leaves out exactly the classes whose description is
   * valid for no supported version.
   */
  lemma CheckRefusesOnlyInvalid(classes: map<string, ClassInfo>, versions: seq<string>, entries: seq<AlgorithmEntry>)
    ensures Registered(classes, versions, true, entries).Keys <= Registered(classes, versions, false, entries).Keys
    ensures forall n :: n in Registered(classes, versions, false, entries) ==>
      (n !in Registered(classes, versions, true, entries) <==> n in classes && NoneValid(versions, classes[n].validVersions))
  {
    RegisteredKeys(classes, versions, false, entries);
    RegisteredKeys(classes, versions, true, entries);
  }
}
