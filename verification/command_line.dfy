/**
 * The argument vector OSMToVector hands to the external extraction tool:
 *   binary -l export [-t tag...] -f "ESRI Shapefile" [--ways --length]
 *          [--geofilter filterFile] inputPath outputPath
 * together with a reader of such vectors, to show that the vector is
 * unambiguous: the reader recovers every input from it.
 */
module CommandLine {
  import opened Common

  /** The layer the tool is asked to write. */
  const ExportLayerName: string := "export"
  /** The output format the tool is asked for. */
  const OutputFormat: string := "ESRI Shapefile"

  /** The flags an element type adds; None for anything but "nodes" and "ways". */
  function ElementTypeArgs(elementType: string): (flags: Option<seq<string>>)
    ensures flags.Some? <==> elementType == "nodes" || elementType == "ways"
    ensures flags == Some([]) <==> elementType == "nodes"
  {
    if elementType == "nodes" then Some([])
    else if elementType == "ways" then Some(["--ways", "--length"])
    else None
  }

  /** "-t" and the tags, or nothing at all when there are no tags. */
  function TagArgs(tags: seq<string>): seq<string>
  {
    if tags == [] then [] else ["-t"] + tags
  }

  function FilterArgs(filterFile: Option<string>): seq<string>
  {
    match filterFile
    case None => []
    case Some(f) => ["--geofilter", f]
  }

  /** The argument vector, or "invalid-args" for an unsupported element type. */
  function BuildCommandLine(binary: string, tags: seq<string>, elementType: string, filterFile: Option<string>,
                            inputPath: string, outputPath: string): (r: Result<seq<string>, ExceptionCode>)
    ensures r.Failure? <==> ElementTypeArgs(elementType).None?
    ensures r.Failure? ==> r.error == InvalidArgs
  {
    match ElementTypeArgs(elementType)
    case None => Failure(InvalidArgs)
    case Some(typeArgs) =>
      Success([binary, "-l", ExportLayerName] + TagArgs(tags) + ["-f", OutputFormat]
              + typeArgs + FilterArgs(filterFile) + [inputPath, outputPath])
  }

  /** What a vector asks the tool to do. */
  datatype Invocation = Invocation(
    binary: string, layer: string, tags: seq<string>, ways: bool,
    filterFile: Option<string>, inputPath: string, outputPath: string)

  /** The elements before the first "-f", and the rest from it on. */
  function UntilFormat(s: seq<string>): (r: (seq<string>, seq<string>))
    ensures r.0 + r.1 == s
    ensures "-f" !in r.0
    ensures r.1 == [] || r.1[0] == "-f"
  {
    if s == [] then ([], [])
    else if s[0] == "-f" then ([], s)
    else
      var (before, rest) := UntilFormat(s[1..]);
      ([s[0]] + before, rest)
  }

  /** Separates the tags from the rest: "-t" opens them and the first "-f" ends them. */
  function SplitTags(rest: seq<string>): (seq<string>, seq<string>)
  {
    if rest != [] && rest[0] == "-t" then UntilFormat(rest[1..]) else ([], rest)
  }

  /** The optional flags between the format and the two paths: ways, then the filter file. */
  function ParseOptions(options: seq<string>): Option<(bool, Option<string>)>
  {
    var ways := |options| >= 2 && options[..2] == ["--ways", "--length"];
    var more := if ways then options[2..] else options;
    if more == [] then Some((ways, None))
    else if |more| == 2 && more[0] == "--geofilter" then Some((ways, Some(more[1])))
    else None
  }

  /** From "-f" on: the format, the optional flags, then the input and the output path. */
  function ParseTail(tail: seq<string>): Option<(bool, Option<string>, string, string)>
  {
    if |tail| < 4 || tail[..2] != ["-f", OutputFormat] then None
    else
      match ParseOptions(tail[2..|tail| - 2])
      case None => None
      case Some((ways, filterFile)) => Some((ways, filterFile, tail[|tail| - 2], tail[|tail| - 1]))
  }

  /** Reads an argument vector the way the tool's option parser does. */
  function Parse(argv: seq<string>): Option<Invocation>
  {
    if |argv| < 3 || argv[1] != "-l" then None
    else
      var (tags, tail) := SplitTags(argv[3..]);
      match ParseTail(tail)
      case None => None
      case Some((ways, filterFile, inputPath, outputPath)) =>
        Some(Invocation(argv[0], argv[2], tags, ways, filterFile, inputPath, outputPath))
  }

  /** Cutting at the first "-f" gives back tags that hold none. */
  lemma {:induction false} UntilFormatStopsAfterTags(tags: seq<string>, rest: seq<string>)
    requires "-f" !in tags
    ensures UntilFormat(tags + ["-f"] + rest) == (tags, ["-f"] + rest)
  {
    var s := tags + ["-f"] + rest;
    if tags != [] {
      assert tags[0] in tags;
      assert s[0] == tags[0] != "-f";
      assert "-f" !in tags[1..] by {
        forall t | t in tags[1..] ensures t in tags { }
      }
      UntilFormatStopsAfterTags(tags[1..], rest);
      assert s[1..] == tags[1..] + ["-f"] + rest;
      assert UntilFormat(s) == ([s[0]] + UntilFormat(s[1..]).0, UntilFormat(s[1..]).1);
      assert [tags[0]] + tags[1..] == tags;
    } else {
      assert s == ["-f"] + rest;
    }
  }

  lemma SplitTagsOfTagArgs(tags: seq<string>, tail: seq<string>)
    requires "-f" !in tags
    requires tail != [] && tail[0] == "-f"
    ensures SplitTags(TagArgs(tags) + tail) == (tags, tail)
  {
    if tags != [] {
      assert (TagArgs(tags) + tail)[1..] == tags + ["-f"] + tail[1..];
      UntilFormatStopsAfterTags(tags, tail[1..]);
      assert ["-f"] + tail[1..] == tail;
    } else {
      assert TagArgs(tags) + tail == tail;
    }
  }

  lemma ParseOptionsOf(elementType: string, filterFile: Option<string>)
    requires ElementTypeArgs(elementType).Some?
    ensures ParseOptions(ElementTypeArgs(elementType).value + FilterArgs(filterFile)) == Some((elementType == "ways", filterFile))
  {
    var options := ElementTypeArgs(elementType).value + FilterArgs(filterFile);
    if elementType == "ways" {
      assert options[..2] == ["--ways", "--length"];
      assert options[2..] == FilterArgs(filterFile);
    } else {
      assert options == FilterArgs(filterFile);
      if filterFile.Some? {
        assert options[..2][0] == "--geofilter" != "--ways";
      }
    }
  }

  lemma ParseTailOf(options: seq<string>, inputPath: string, outputPath: string)
    requires ParseOptions(options).Some?
    ensures var tail := ["-f", OutputFormat] + options + [inputPath, outputPath];
      ParseTail(tail) == Some((ParseOptions(options).value.0, ParseOptions(options).value.1, inputPath, outputPath))
  {
    var tail := ["-f", OutputFormat] + options + [inputPath, outputPath];
    assert tail[..2] == ["-f", OutputFormat];
    assert tail[2..|tail| - 2] == options;
  }

  /** The vector's pieces regrouped as the reader takes them apart: the head, then the tags, then the tail. */
  lemma Regroup(head: seq<string>, tags: seq<string>, format: seq<string>, typeArgs: seq<string>,
                filter: seq<string>, paths: seq<string>)
    ensures head + tags + format + typeArgs + filter + paths
         == head + (tags + (format + (typeArgs + filter) + paths))
  {
    AppendAssociates(format, typeArgs, filter);
    AppendAssociates(head + tags, format, typeArgs);
    AppendAssociates(head + tags, format + typeArgs, filter);
    AppendAssociates(head + tags, format + typeArgs + filter, paths);
    AppendAssociates(head, tags, format + typeArgs + filter + paths);
  }

  /**
   * The vector determines the request: reading it back gives the binary, the
   * export layer, the tags, whether ways were asked for, the filter file and
   * the two paths. Only a tag equal to "-f" would make it ambiguous.
   */
  lemma CommandLineRoundTrip(binary: string, tags: seq<string>, elementType: string, filterFile: Option<string>,
                             inputPath: string, outputPath: string)
    requires "-f" !in tags
    requires BuildCommandLine(binary, tags, elementType, filterFile, inputPath, outputPath).Success?
    ensures Parse(BuildCommandLine(binary, tags, elementType, filterFile, inputPath, outputPath).value)
      == Some(Invocation(binary, ExportLayerName, tags, elementType == "ways", filterFile, inputPath, outputPath))
  {
    var options := ElementTypeArgs(elementType).value + FilterArgs(filterFile);
    var tail := ["-f", OutputFormat] + options + [inputPath, outputPath];
    var argv := BuildCommandLine(binary, tags, elementType, filterFile, inputPath, outputPath).value;
    Regroup([binary, "-l", ExportLayerName], TagArgs(tags), ["-f", OutputFormat],
            ElementTypeArgs(elementType).value, FilterArgs(filterFile), [inputPath, outputPath]);
    assert argv[3..] == TagArgs(tags) + tail;
    SplitTagsOfTagArgs(tags, tail);
    ParseOptionsOf(elementType, filterFile);
    ParseTailOf(options, inputPath, outputPath);
  }
}
