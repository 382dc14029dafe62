/**
 * The deterministic logic of the data-import tasks in source/tyr/tyr/binarisation.py:
 * the database connection string, the argument vectors handed to each converter,
 * the Osmosis polygon-file reader `parse_poly`, the rule deciding when a task
 * marks its job failed and when it records a metric, and the reload routing key.
 * Running the converters, the file system, the databases and the broker are not
 * modelled: what they do is an input.
 */
module Binarisation {
  import opened Wrappers
  import opened PyStr

  /** A Python value that `if x:` accepts: present and non-empty. */
  predicate Truthy(o: Option<string>) {
    o.Some? && |o.value| > 0
  }

  /** The parts of an instance's configuration the tasks read. */
  datatype InstanceConfig = InstanceConfig(
    pgHost: string, pgUsername: string, pgDbname: string, pgPassword: string,
    aliasesFile: Option<string>, synonymsFile: Option<string>, targetFile: string)

  // ---------------------------------------------------------------------------
  // make_connection_string
  // ---------------------------------------------------------------------------

  /** `make_connection_string`: the libpq key=value string for the instance's database. */
  function MakeConnectionString(c: InstanceConfig): string {
    "host=" + c.pgHost + " user=" + c.pgUsername + " dbname=" + c.pgDbname + " password=" + c.pgPassword
  }

  /** The four settings a connection string carries. */
  datatype DbSettings = DbSettings(host: string, user: string, dbname: string, password: string)

  /** Reads back a connection string of the shape `make_connection_string` writes. */
  function ParseConnectionString(cs: string): Option<DbSettings> {
    var parts := SplitOn(cs, ' ');
    if |parts| == 4 && StartsWith(parts[0], "host=") && StartsWith(parts[1], "user=")
       && StartsWith(parts[2], "dbname=") && StartsWith(parts[3], "password=")
    then Some(DbSettings(parts[0][5..], parts[1][5..], parts[2][7..], parts[3][9..]))
    else None
  }

  lemma JoinFour(h: string, u: string, d: string, p: string)
    ensures h + " " + u + " " + d + " " + p == h + [' '] + (u + [' '] + (d + [' '] + p))
  {
  }

  lemma SplitTwo(d: string, p: string)
    requires ' ' !in d && ' ' !in p
    ensures SplitOn(d + [' '] + p, ' ') == [d, p]
  {
    SplitOnNone(p, ' ');
    SplitOnConcat(d, ' ', p);
  }

  lemma SplitThree(u: string, d: string, p: string)
    requires ' ' !in u && ' ' !in d && ' ' !in p
    ensures SplitOn(u + [' '] + (d + [' '] + p), ' ') == [u, d, p]
  {
    SplitTwo(d, p);
    SplitOnConcat(u, ' ', d + [' '] + p);
  }

  /** Four space-free fields joined by single spaces split back into those fields. */
  lemma SplitFour(h: string, u: string, d: string, p: string)
    requires ' ' !in h && ' ' !in u && ' ' !in d && ' ' !in p
    ensures SplitOn(h + " " + u + " " + d + " " + p, ' ') == [h, u, d, p]
  {
    JoinFour(h, u, d, p);
    SplitThree(u, d, p);
    SplitOnConcat(h, ' ', u + [' '] + (d + [' '] + p));
  }

  lemma AfterPrefix(pre: string, v: string)
    ensures StartsWith(pre + v, pre) && (pre + v)[|pre|..] == v
  {
    assert (pre + v)[..|pre|] == pre;
  }

  /** Settings without spaces survive the connection string unchanged. */
  lemma ConnectionStringRoundTrip(c: InstanceConfig)
    requires ' ' !in c.pgHost && ' ' !in c.pgUsername && ' ' !in c.pgDbname && ' ' !in c.pgPassword
    ensures ParseConnectionString(MakeConnectionString(c)) ==
      Some(DbSettings(c.pgHost, c.pgUsername, c.pgDbname, c.pgPassword))
  {
    var h, u := "host=" + c.pgHost, "user=" + c.pgUsername;
    var d, p := "dbname=" + c.pgDbname, "password=" + c.pgPassword;
    assert MakeConnectionString(c) == h + " " + u + " " + d + " " + p;
    SplitFour(h, u, d, p);
    AfterPrefix("host=", c.pgHost);
    AfterPrefix("user=", c.pgUsername);
    AfterPrefix("dbname=", c.pgDbname);
    AfterPrefix("password=", c.pgPassword);
  }

  // ---------------------------------------------------------------------------
  // Reading an argument vector back: converters take `flag value` pairs
  // ---------------------------------------------------------------------------

  /** The value of the first `flag value` pair for `flag`. */
  function OptionValue(argv: seq<string>, flag: string): Option<string>
    decreases |argv|
  {
    if |argv| < 2 then None
    else if argv[0] == flag then Some(argv[1])
    else OptionValue(argv[2..], flag)
  }

  /** The values of every `flag value` pair for `flag`, in order. */
  function OptionValues(argv: seq<string>, flag: string): seq<string>
    decreases |argv|
  {
    if |argv| < 2 then []
    else (if argv[0] == flag then [argv[1]] else []) + OptionValues(argv[2..], flag)
  }

  lemma {:induction false} OptionValueAppend(a: seq<string>, b: seq<string>, flag: string)
    requires |a| % 2 == 0
    ensures OptionValue(a + b, flag) == if OptionValue(a, flag).Some? then OptionValue(a, flag) else OptionValue(b, flag)
    decreases |a|
  {
    if |a| == 0 {
      assert a + b == b;
    } else {
      assert (a + b)[2..] == a[2..] + b;
      OptionValueAppend(a[2..], b, flag);
    }
  }

  lemma {:induction false} OptionValuesAppend(a: seq<string>, b: seq<string>, flag: string)
    requires |a| % 2 == 0
    ensures OptionValues(a + b, flag) == OptionValues(a, flag) + OptionValues(b, flag)
    decreases |a|
  {
    if |a| == 0 {
      assert a + b == b;
    } else {
      assert (a + b)[2..] == a[2..] + b;
      OptionValuesAppend(a[2..], b, flag);
    }
  }

  /** A single `flag value` pair answers for its own flag only. */
  lemma OptionValuePair(f: string, v: string, flag: string)
    ensures OptionValue([f, v], flag) == if f == flag then Some(v) else None
  {
    assert [f, v][2..] == [];
  }

  // ---------------------------------------------------------------------------
  // fusio2ed and gtfs2ed
  // ---------------------------------------------------------------------------

  /** `flag value` when the value is set and non-empty, nothing otherwise. */
  function OptionalFlag(flag: string, value: Option<string>): seq<string> {
    if Truthy(value) then [flag, value.value] else []
  }

  /** The argument vector of `fusio2ed` and `gtfs2ed`. */
  function ConverterArgs(workingDirectory: string, c: InstanceConfig): seq<string> {
    ["-i", workingDirectory] + OptionalFlag("-a", c.aliasesFile) + OptionalFlag("-s", c.synonymsFile)
      + ["--connection-string", MakeConnectionString(c)]
  }

  /** The parameter building of `fusio2ed` and `gtfs2ed`. */
  method ConverterParams(workingDirectory: string, c: InstanceConfig) returns (params: seq<string>)
    ensures params == ConverterArgs(workingDirectory, c)
  {
    params := ["-i", workingDirectory];
    if Truthy(c.aliasesFile) {
      params := params + ["-a"];
      params := params + [c.aliasesFile.value];
    }
    if Truthy(c.synonymsFile) {
      params := params + ["-s"];
      params := params + [c.synonymsFile.value];
    }
    var connectionString := MakeConnectionString(c);
    params := params + ["--connection-string"];
    params := params + [connectionString];
  }

  /** The converter reads back its input directory, the optional files exactly when they are set, and the connection string. */
  lemma ConverterArgsDecode(workingDirectory: string, c: InstanceConfig, flag: string)
    ensures OptionValue(ConverterArgs(workingDirectory, c), flag) ==
      if flag == "-i" then Some(workingDirectory)
      else if flag == "-a" && Truthy(c.aliasesFile) then c.aliasesFile
      else if flag == "-s" && Truthy(c.synonymsFile) then c.synonymsFile
      else if flag == "--connection-string" then Some(MakeConnectionString(c))
      else None
  {
    var i, a := ["-i", workingDirectory], OptionalFlag("-a", c.aliasesFile);
    var s, cs := OptionalFlag("-s", c.synonymsFile), ["--connection-string", MakeConnectionString(c)];
    assert ConverterArgs(workingDirectory, c) == i + (a + (s + cs));
    OptionValueAppend(i, a + (s + cs), flag);
    OptionValueAppend(a, s + cs, flag);
    OptionValueAppend(s, cs, flag);
    OptionValuePair("-i", workingDirectory, flag);
    OptionalFlagValue("-a", c.aliasesFile, flag);
    OptionalFlagValue("-s", c.synonymsFile, flag);
    OptionValuePair("--connection-string", MakeConnectionString(c), flag);
  }

  /** An unset or empty option adds nothing; a set one answers for its flag. */
  lemma OptionalFlagValue(f: string, v: Option<string>, flag: string)
    ensures OptionValue(OptionalFlag(f, v), flag) == if Truthy(v) && f == flag then v else None
  {
    if Truthy(v) {
      OptionValuePair(f, v.value, flag);
    }
  }

  // ---------------------------------------------------------------------------
  // osm2ed
  // ---------------------------------------------------------------------------

  /** A point-of-interest type of the instance. */
  datatype PoiType = PoiType(uri: string, name: Option<string>)

  /** The value passed after `-p` for one POI type: `uri=name` when it has a name, else `uri`. */
  function PoiArg(p: PoiType): string {
    if Truthy(p.name) then p.uri + "=" + p.name.value else p.uri
  }

  /** A URI and a name without `=` can be told apart again in the argument. */
  lemma PoiArgRoundTrip(p: PoiType)
    requires '=' !in p.uri && (p.name.Some? ==> '=' !in p.name.value)
    ensures SplitOn(PoiArg(p), '=') == if Truthy(p.name) then [p.uri, p.name.value] else [p.uri]
  {
    if Truthy(p.name) {
      assert PoiArg(p) == p.uri + ['='] + p.name.value;
      SplitOnConcat(p.uri, '=', p.name.value);
      SplitOnNone(p.name.value, '=');
    } else {
      SplitOnNone(p.uri, '=');
    }
  }

  /** `-p` and its value for each POI type, in order. */
  function PoiFlags(poiTypes: seq<PoiType>): (r: seq<string>)
    ensures |r| == 2 * |poiTypes|
    decreases |poiTypes|
  {
    if |poiTypes| == 0 then []
    else PoiFlags(poiTypes[..|poiTypes| - 1]) + ["-p", PoiArg(poiTypes[|poiTypes| - 1])]
  }

  /** The argument vector of `osm2ed`. */
  function Osm2edArgs(osmFile: string, c: InstanceConfig, poiTypes: seq<PoiType>): seq<string> {
    ["-i", osmFile, "--connection-string", MakeConnectionString(c)] + PoiFlags(poiTypes)
  }

  /** The argument building of `osm2ed`. */
  method Osm2edParams(osmFile: string, c: InstanceConfig, poiTypes: seq<PoiType>) returns (args: seq<string>)
    ensures args == Osm2edArgs(osmFile, c, poiTypes)
  {
    var connectionString := MakeConnectionString(c);
    args := ["-i", osmFile, "--connection-string", connectionString];
    var i := 0;
    while i < |poiTypes|
      invariant 0 <= i <= |poiTypes|
      invariant args == Osm2edArgs(osmFile, c, poiTypes[..i])
    {
      var poiType := poiTypes[i];
      assert poiTypes[..i + 1][..i] == poiTypes[..i];
      args := args + ["-p"];
      if Truthy(poiType.name) {
        args := args + [poiType.uri + "=" + poiType.name.value];
      } else {
        args := args + [poiType.uri];
      }
      i := i + 1;
    }
    assert poiTypes[..i] == poiTypes;
  }

  /** The `-p` values are exactly the POI arguments, one per type, in order. */
  lemma {:induction false} PoiFlagsDecode(poiTypes: seq<PoiType>)
    ensures OptionValues(PoiFlags(poiTypes), "-p") == seq(|poiTypes|, i requires 0 <= i < |poiTypes| => PoiArg(poiTypes[i]))
    decreases |poiTypes|
  {
    if |poiTypes| > 0 {
      var init := poiTypes[..|poiTypes| - 1];
      PoiFlagsDecode(init);
      OptionValuesAppend(PoiFlags(init), ["-p", PoiArg(poiTypes[|poiTypes| - 1])], "-p");
    }
  }

  /** osm2ed reads back its input file, connection string and every POI type. */
  lemma Osm2edArgsDecode(osmFile: string, c: InstanceConfig, poiTypes: seq<PoiType>)
    ensures var argv := Osm2edArgs(osmFile, c, poiTypes);
      OptionValue(argv, "-i") == Some(osmFile) &&
      OptionValue(argv, "--connection-string") == Some(MakeConnectionString(c)) &&
      OptionValues(argv, "-p") == seq(|poiTypes|, i requires 0 <= i < |poiTypes| => PoiArg(poiTypes[i]))
  {
    var head := ["-i", osmFile, "--connection-string", MakeConnectionString(c)];
    OptionValuesAppend(head, PoiFlags(poiTypes), "-p");
    PoiFlagsDecode(poiTypes);
  }

  // ---------------------------------------------------------------------------
  // geopal2ed, poi2ed, synonym2ed, fare2ed, bano2mimir
  // ---------------------------------------------------------------------------

  /** The two-option vector of the single-input converters: geopal2ed, poi2ed and synonym2ed use `-i`, fare2ed `-f`. */
  function InputArgs(inputFlag: string, input: string, connectionString: string): seq<string> {
    [inputFlag, input, "--connection-string", connectionString]
  }

  lemma InputArgsDecode(inputFlag: string, input: string, connectionString: string)
    requires inputFlag != "--connection-string"
    ensures OptionValue(InputArgs(inputFlag, input, connectionString), inputFlag) == Some(input)
    ensures OptionValue(InputArgs(inputFlag, input, connectionString), "--connection-string") == Some(connectionString)
  {
    var argv := InputArgs(inputFlag, input, connectionString);
    assert argv[2..] == ["--connection-string", connectionString];
  }

  /** The index the mimir tasks write to. */
  const MimirIndex: string := "munin"

  /** The connection string of bano2mimir and osm2mimir: the mimir URL followed by the index. */
  function MimirConnectionString(mimirUrl: string): string {
    mimirUrl + "/" + MimirIndex
  }

  /** Whatever the URL, the last path component names the index. */
  lemma MimirConnectionIndex(mimirUrl: string)
    ensures Basename(MimirConnectionString(mimirUrl)) == MimirIndex
  {
    assert forall k :: 0 <= k < |MimirIndex| ==> MimirIndex[k] != '/';
    BasenameAfterSlash(mimirUrl, MimirIndex);
  }

  // ---------------------------------------------------------------------------
  // osm2mimir
  // ---------------------------------------------------------------------------

  /** `--level` and the decimal administrative level, for each level in order. */
  function LevelFlags(levels: seq<int>): (r: seq<string>)
    ensures |r| == 2 * |levels|
    decreases |levels|
  {
    if |levels| == 0 then []
    else LevelFlags(levels[..|levels| - 1]) + ["--level", DecimalString(levels[|levels| - 1])]
  }

  /** The argument vector of `osm2mimir`. */
  function Osm2mimirArgs(workingDirectory: string, mimirUrl: string, levels: seq<int>): seq<string> {
    ["-i", workingDirectory, "--connection-string", MimirConnectionString(mimirUrl)] + LevelFlags(levels)
  }

  /** The parameter building of `osm2mimir`. */
  method Osm2mimirParams(workingDirectory: string, mimirUrl: string, levels: seq<int>) returns (params: seq<string>)
    ensures params == Osm2mimirArgs(workingDirectory, mimirUrl, levels)
  {
    var cnxString := mimirUrl + "/" + MimirIndex;
    params := ["-i", workingDirectory, "--connection-string", cnxString];
    var i := 0;
    while i < |levels|
      invariant 0 <= i <= |levels|
      invariant params == Osm2mimirArgs(workingDirectory, mimirUrl, levels[..i])
    {
      assert levels[..i + 1][..i] == levels[..i];
      params := params + ["--level"];
      params := params + [DecimalString(levels[i])];
      i := i + 1;
    }
    assert levels[..i] == levels;
  }

  /** The `--level` values read back as integers give the administrative levels, in order. */
  lemma {:induction false} LevelFlagsDecode(levels: seq<int>)
    ensures var values := OptionValues(LevelFlags(levels), "--level");
      |values| == |levels| && forall i :: 0 <= i < |levels| ==> ParseDecimal(values[i]) == levels[i]
    decreases |levels|
  {
    if |levels| > 0 {
      var init := levels[..|levels| - 1];
      var last := levels[|levels| - 1];
      LevelFlagsDecode(init);
      OptionValuesAppend(LevelFlags(init), ["--level", DecimalString(last)], "--level");
      DecimalRoundTrip(last);
    }
  }

  lemma Osm2mimirArgsDecode(workingDirectory: string, mimirUrl: string, levels: seq<int>)
    ensures var argv := Osm2mimirArgs(workingDirectory, mimirUrl, levels);
      var values := OptionValues(argv, "--level");
      OptionValue(argv, "-i") == Some(workingDirectory) &&
      OptionValue(argv, "--connection-string") == Some(MimirConnectionString(mimirUrl)) &&
      |values| == |levels| && forall i :: 0 <= i < |levels| ==> ParseDecimal(values[i]) == levels[i]
  {
    var head := ["-i", workingDirectory, "--connection-string", MimirConnectionString(mimirUrl)];
    OptionValuesAppend(head, LevelFlags(levels), "--level");
    LevelFlagsDecode(levels);
  }

  // ---------------------------------------------------------------------------
  // ed2nav
  // ---------------------------------------------------------------------------

  /** The output file of `ed2nav`: the target file, moved into `custom_output_dir` next to it when one is given. */
  function Ed2navOutputFile(targetFile: string, customOutputDir: Option<string>): string {
    if Truthy(customOutputDir) then
      var targetPath := Join(Dirname(targetFile), customOutputDir.value);
      Join(targetPath, Basename(targetFile))
    else targetFile
  }

  /** The argument vector of `ed2nav`. */
  function Ed2navArgs(c: InstanceConfig, customOutputDir: Option<string>, citiesUri: Option<string>): seq<string> {
    ["-o", Ed2navOutputFile(c.targetFile, customOutputDir), "--connection-string", MakeConnectionString(c)]
      + OptionalFlag("--cities-connection-string", citiesUri)
  }

  /** The argument building of `ed2nav`; `citiesUri` is `CITIES_DATABASE_URI` when the configuration has it. */
  method Ed2navArgv(c: InstanceConfig, customOutputDir: Option<string>, citiesUri: Option<string>) returns (argv: seq<string>)
    ensures argv == Ed2navArgs(c, customOutputDir, citiesUri)
  {
    var outputFile := c.targetFile;
    if Truthy(customOutputDir) {
      var targetPath := Join(Dirname(outputFile), customOutputDir.value);
      outputFile := Join(targetPath, Basename(outputFile));
    }
    var connectionString := MakeConnectionString(c);
    argv := ["-o", outputFile, "--connection-string", connectionString];
    if Truthy(citiesUri) {
      argv := argv + ["--cities-connection-string", citiesUri.value];
    }
  }

  /** The rewrite keeps the file name and, for a directory name without a trailing slash, puts it in that directory. */
  lemma Ed2navOutputInCustomDir(targetFile: string, customOutputDir: Option<string>)
    ensures Basename(Ed2navOutputFile(targetFile, customOutputDir)) == Basename(targetFile)
    ensures !Truthy(customOutputDir) ==> Ed2navOutputFile(targetFile, customOutputDir) == targetFile
    ensures Truthy(customOutputDir) && customOutputDir.value[|customOutputDir.value| - 1] != '/' ==>
      Dirname(Ed2navOutputFile(targetFile, customOutputDir)) == Join(Dirname(targetFile), customOutputDir.value)
  {
    if Truthy(customOutputDir) {
      var dir := customOutputDir.value;
      var targetPath := Join(Dirname(targetFile), dir);
      var name := Basename(targetFile);
      assert Ed2navOutputFile(targetFile, customOutputDir) == Join(targetPath, name);
      BasenameOfJoin(targetPath, name);
      if dir[|dir| - 1] != '/' {
        JoinEndsLikeName(Dirname(targetFile), dir);
        DirnameOfJoin(targetPath, name);
      }
    }
  }

  /** ed2nav reads back its output file, the connection string, and the cities database exactly when it is configured. */
  lemma Ed2navArgsDecode(c: InstanceConfig, customOutputDir: Option<string>, citiesUri: Option<string>, flag: string)
    ensures OptionValue(Ed2navArgs(c, customOutputDir, citiesUri), flag) ==
      if flag == "-o" then Some(Ed2navOutputFile(c.targetFile, customOutputDir))
      else if flag == "--connection-string" then Some(MakeConnectionString(c))
      else if flag == "--cities-connection-string" && Truthy(citiesUri) then citiesUri
      else None
  {
    var o := ["-o", Ed2navOutputFile(c.targetFile, customOutputDir)];
    var cs := ["--connection-string", MakeConnectionString(c)];
    var cities := OptionalFlag("--cities-connection-string", citiesUri);
    assert Ed2navArgs(c, customOutputDir, citiesUri) == o + (cs + cities);
    OptionValueAppend(o, cs + cities, flag);
    OptionValueAppend(cs, cities, flag);
    OptionValuePair("-o", Ed2navOutputFile(c.targetFile, customOutputDir), flag);
    OptionValuePair("--connection-string", MakeConnectionString(c), flag);
    OptionalFlagValue("--cities-connection-string", citiesUri, flag);
  }

  // ---------------------------------------------------------------------------
  // parse_poly
  // ---------------------------------------------------------------------------

  /** A coordinate line, kept as the tokens `line.split()` gives. */
  type CoordLine = seq<string>

  /** A polygon part: its outer ring and its holes. */
  datatype Part = Part(outer: seq<CoordLine>, holes: seq<seq<CoordLine>>)

  /** The ring the `ring` variable refers to: the outer ring or the last hole of the last part. */
  datatype RingRef = OuterRing | LastHole

  /** The loop state of `parse_poly`; `stopped` is set where the loop breaks. */
  datatype PolyState = PolyState(coords: seq<Part>, inRing: bool, ring: RingRef, stopped: bool)

  const PolyStart := PolyState([], false, OuterRing, false)

  /** The loop cannot stop before the third line; from then on there is a last part, and a last hole when `ring` refers to one. */
  predicate PolyInvariant(st: PolyState, index: nat) {
    (index < 2 ==> !st.stopped) &&
    (index >= 2 ==> |st.coords| > 0 && (st.ring == LastHole ==> |st.coords[|st.coords| - 1].holes| > 0))
  }

  /** `ring.append(tokens)`: the ring `ring` refers to gains one coordinate line. */
  function AppendToRing(coords: seq<Part>, ring: RingRef, tokens: CoordLine): (r: seq<Part>)
    requires |coords| > 0 && (ring == LastHole ==> |coords[|coords| - 1].holes| > 0)
    ensures |r| == |coords| && r[..|r| - 1] == coords[..|coords| - 1]
    ensures var o, n := coords[|coords| - 1], r[|r| - 1];
      ring == OuterRing ==> n.outer == o.outer + [tokens] && n.holes == o.holes
    ensures var o, n := coords[|coords| - 1], r[|r| - 1];
      ring == LastHole ==>
        (n.outer == o.outer && |n.holes| == |o.holes| &&
         n.holes[..|n.holes| - 1] == o.holes[..|o.holes| - 1] &&
         n.holes[|n.holes| - 1] == o.holes[|o.holes| - 1] + [tokens])
  {
    var last := coords[|coords| - 1];
    var updated :=
      if ring == OuterRing then last.(outer := last.outer + [tokens])
      else last.(holes := last.holes[..|last.holes| - 1] + [last.holes[|last.holes| - 1] + [tokens]]);
    coords[..|coords| - 1] + [updated]
  }

  /** `coords[-1][1].append([])`: the last part gains an empty hole. */
  function OpenHole(coords: seq<Part>): seq<Part>
    requires |coords| > 0
  {
    var last := coords[|coords| - 1];
    coords[..|coords| - 1] + [last.(holes := last.holes + [[]])]
  }

  /** What the loop looks at in a line: whether it strips to END, whether it starts with '!', and its fields. */
  datatype PolyLine = PolyLine(isEnd: bool, opensHole: bool, tokens: CoordLine)

  function ReadPolyLine(line: string): PolyLine {
    PolyLine(Strip(line) == "END", StartsWith(line, "!"), Fields(line))
  }

  /** One iteration of the `parse_poly` loop on the line at `index`. */
  function PolyStep(st: PolyState, index: nat, line: PolyLine): (r: PolyState)
    requires PolyInvariant(st, index)
    ensures PolyInvariant(r, index + 1)
  {
    if st.stopped || index == 0 then st
    else if index == 1 then PolyState(st.coords + [Part([], [])], true, OuterRing, false)
    else if st.inRing && line.isEnd then st.(inRing := false)
    else if st.inRing then st.(coords := AppendToRing(st.coords, st.ring, line.tokens))
    else if line.isEnd then st.(stopped := true)
    else if line.opensHole then PolyState(OpenHole(st.coords), true, LastHole, false)
    else PolyState(st.coords + [Part([], [])], true, OuterRing, false)
  }

  /** Every line as the loop reads it. */
  function ReadLines(lines: seq<string>): (r: seq<PolyLine>)
    ensures |r| == |lines|
  {
    seq(|lines|, i requires 0 <= i < |lines| => ReadPolyLine(lines[i]))
  }

  /** The loop state after the given lines. */
  function PolyRun(lines: seq<PolyLine>): (r: PolyState)
    ensures PolyInvariant(r, |lines|)
    decreases |lines|
  {
    if |lines| == 0 then PolyStart
    else PolyStep(PolyRun(lines[..|lines| - 1]), |lines| - 1, lines[|lines| - 1])
  }

  /** `parse_poly` without the float conversion and the `MultiPolygon`: the parts it collects. */
  method ParsePoly(lines: seq<string>) returns (coords: seq<Part>)
    ensures coords == PolyRun(ReadLines(lines)).coords
  {
    ghost var read := ReadLines(lines);
    var inRing := false;
    var ring := OuterRing;
    coords := [];
    var index := 0;
    while index < |lines|
      invariant 0 <= index <= |lines|
      invariant PolyRun(read[..index]) == PolyState(coords, inRing, ring, false)
    {
      var line := ReadPolyLine(lines[index]);
      ghost var after := PolyStep(PolyState(coords, inRing, ring, false), index, line);
      PolyRunStep(read, index);
      if index == 0 {
        // the first line is a name
      } else if index == 1 {
        coords := coords + [Part([], [])];
        ring := OuterRing;
        inRing := true;
      } else if inRing && line.isEnd {
        inRing := false;
      } else if inRing {
        coords := AppendToRing(coords, ring, line.tokens);
      } else if line.isEnd {
        assert after.stopped && after.coords == coords;
        PolyStopsAt(read, index);
        return;
      } else if line.opensHole {
        coords := OpenHole(coords);
        ring := LastHole;
        inRing := true;
      } else {
        coords := coords + [Part([], [])];
        ring := OuterRing;
        inRing := true;
      }
      assert after == PolyState(coords, inRing, ring, false);
      index := index + 1;
    }
    assert read[..index] == read;
  }

  /** The state after one more line is one more step. */
  lemma PolyRunStep(lines: seq<PolyLine>, index: nat)
    requires index < |lines|
    ensures PolyRun(lines[..index + 1]) == PolyStep(PolyRun(lines[..index]), index, lines[index])
  {
    assert lines[..index + 1][..index] == lines[..index];
  }

  /** Once the closing END is read, the lines after it change nothing. */
  lemma {:induction false} PolyStopIsFinal(lines: seq<PolyLine>, more: seq<PolyLine>)
    requires PolyRun(lines).stopped
    ensures PolyRun(lines + more) == PolyRun(lines)
    decreases |more|
  {
    if |more| == 0 {
      assert lines + more == lines;
    } else {
      var all := lines + more;
      assert all[..|all| - 1] == lines + more[..|more| - 1];
      PolyStopIsFinal(lines, more[..|more| - 1]);
    }
  }

  /** The parts collected up to the closing END are the parts of the whole file. */
  lemma {:induction false} PolyStopsAt(lines: seq<PolyLine>, index: nat)
    requires index < |lines| && PolyRun(lines[..index + 1]).stopped
    ensures PolyRun(lines) == PolyRun(lines[..index + 1])
    decreases |lines|
  {
    if |lines| == index + 1 {
      assert lines[..index + 1] == lines;
    } else {
      var init := lines[..|lines| - 1];
      assert init[..index + 1] == lines[..index + 1];
      PolyStopsAt(init, index);
    }
  }

  /** The first line is never looked at. */
  lemma {:induction false} PolyIgnoresFirstLine(a: seq<PolyLine>, b: seq<PolyLine>)
    requires |a| == |b| && |a| > 0 && a[1..] == b[1..]
    ensures PolyRun(a) == PolyRun(b)
    decreases |a|
  {
    var n := |a|;
    if n > 1 {
      assert a[n - 1] == a[1..][n - 2] == b[1..][n - 2] == b[n - 1];
      assert a[..n - 1][1..] == a[1..][..n - 2] == b[1..][..n - 2] == b[..n - 1][1..];
      PolyIgnoresFirstLine(a[..n - 1], b[..n - 1]);
    }
  }

  /** Whatever the second line says, it opens the first outer ring. */
  lemma PolySecondLineOpensRing(lines: seq<PolyLine>)
    requires |lines| >= 2
    ensures PolyRun(lines[..2]) == PolyState([Part([], [])], true, OuterRing, false)
  {
    assert lines[..2][..1] == lines[..1];
    assert lines[..1][..0] == [];
    assert PolyRun(lines[..1]) == PolyStart;
  }

  /** How many coordinate lines the parts hold. */
  function LineCount(coords: seq<Part>): nat
    decreases |coords|
  {
    if |coords| == 0 then 0
    else
      var last := coords[|coords| - 1];
      LineCount(coords[..|coords| - 1]) + |last.outer| + RingsLineCount(last.holes)
  }

  function RingsLineCount(rings: seq<seq<CoordLine>>): nat
    decreases |rings|
  {
    if |rings| == 0 then 0 else RingsLineCount(rings[..|rings| - 1]) + |rings[|rings| - 1]|
  }

  lemma RingsLineCountAppend(rings: seq<seq<CoordLine>>, ring: seq<CoordLine>)
    ensures RingsLineCount(rings + [ring]) == RingsLineCount(rings) + |ring|
  {
    assert (rings + [ring])[..|rings|] == rings;
  }

  /** What one line does from the third line on, while the loop is still running. */
  lemma PolyStepEffect(st: PolyState, index: nat, line: PolyLine)
    requires PolyInvariant(st, index) && index >= 2 && !st.stopped
    ensures var r := PolyStep(st, index, line);
      (st.inRing && line.isEnd ==> r.coords == st.coords && !r.inRing && !r.stopped) &&
      (st.inRing && !line.isEnd ==>
        |r.coords| == |st.coords| && LineCount(r.coords) == LineCount(st.coords) + 1 &&
        r.coords[..|r.coords| - 1] == st.coords[..|st.coords| - 1] && r.inRing && r.ring == st.ring &&
        (var o, n := st.coords[|st.coords| - 1], r.coords[|r.coords| - 1];
          (st.ring == OuterRing ==> n == Part(o.outer + [line.tokens], o.holes)) &&
          (st.ring == LastHole ==> n.outer == o.outer && n.holes == o.holes[..|o.holes| - 1] + [o.holes[|o.holes| - 1] + [line.tokens]]))) &&
      (!st.inRing && line.isEnd ==> r.coords == st.coords && r.stopped) &&
      (!st.inRing && !line.isEnd && line.opensHole ==>
        |r.coords| == |st.coords| && r.coords[..|r.coords| - 1] == st.coords[..|st.coords| - 1] &&
        r.coords[|r.coords| - 1].holes == st.coords[|st.coords| - 1].holes + [[]] &&
        r.coords[|r.coords| - 1].outer == st.coords[|st.coords| - 1].outer && r.inRing && r.ring == LastHole) &&
      (!st.inRing && !line.isEnd && !line.opensHole ==>
        r.coords == st.coords + [Part([], [])] && r.inRing && r.ring == OuterRing)
  {
    if st.inRing && !line.isEnd {
      var c := st.coords;
      var r := AppendToRing(c, st.ring, line.tokens);
      var n := |c|;
      assert c == c[..n - 1] + [c[n - 1]];
      assert r == r[..n - 1] + [r[n - 1]];
      var last := c[n - 1];
      if st.ring == LastHole {
        var h := last.holes;
        var k := |h|;
        assert h == h[..k - 1] + [h[k - 1]];
        RingsLineCountAppend(h[..k - 1], h[k - 1]);
        RingsLineCountAppend(h[..k - 1], h[k - 1] + [line.tokens]);
      }
    }
    if !st.inRing && !line.isEnd && line.opensHole {
      var c := st.coords;
      assert OpenHole(c)[|c| - 1] == c[|c| - 1].(holes := c[|c| - 1].holes + [[]]);
    }
  }

  // ---------------------------------------------------------------------------
  // Job outcome of the converter tasks
  // ---------------------------------------------------------------------------

  /** The job row: only its state is written, and the only state written is "failed". */
  class Job {
    const id: int
    var state: string

    constructor (id: int, state: string)
      ensures this.id == id && this.state == state
    {
      this.id := id;
      this.state := state;
    }
  }

  /** A metric row: which job, dataset and task type; the duration is not modelled. */
  datatype Metric = Metric(jobId: int, datasetUid: Option<string>, taskType: string)

  /** The metric rows persisted by `collect_metric`. */
  class MetricTable {
    var rows: seq<Metric>

    constructor ()
      ensures rows == []
    {
      rows := [];
    }
  }

  /** How a step that may raise ended. */
  datatype Step = Completed | Raised

  /** How `launch_exec` ended: with the converter's exit code, or raising. */
  datatype Launch = Exited(code: int) | LaunchRaised

  /**
   * What happens around one task run: the steps before its `try` (loading the job; the
   * `glob` of osm2ed; the unzip and merge of the mimir tasks), the steps inside the `try`
   * before the launch (unzipping, creating directories), the launch, and whether the
   * metric's session commit succeeds.
   */
  datatype TaskRun = TaskRun(beforeTry: Step, inTry: Step, launch: Launch, metricPersisted: bool)

  /** A task: its type name, whether its launch runs under `collect_metric`, and the dataset given to it. */
  datatype Task = Task(taskType: string, collectsMetric: bool, datasetUid: Option<string>)

  /** The `except` branch runs: something failed inside the `try`, or the converter exited non-zero. */
  predicate TaskFails(run: TaskRun) {
    run.beforeTry == Completed && (run.inTry == Raised || run.launch.LaunchRaised? || run.launch.code != 0)
  }

  /** The task ends by raising: before its `try`, or by re-raising from the `except` branch. */
  predicate TaskRaises(run: TaskRun) {
    run.beforeTry == Raised || TaskFails(run)
  }

  /** The code after `yield` in `collect_metric` runs only when the launch returned, and its commit may fail silently. */
  predicate MetricRecorded(task: Task, run: TaskRun) {
    task.collectsMetric && run.beforeTry == Completed && run.inTry == Completed && run.launch.Exited? && run.metricPersisted
  }

  /** The body shared by the converter tasks: fusio2ed, gtfs2ed, osm2ed, geopal2ed, poi2ed, synonym2ed, ed2nav, fare2ed, bano2mimir, osm2mimir. */
  method RunTask(task: Task, job: Job, metrics: MetricTable, run: TaskRun) returns (raised: bool)
    modifies job, metrics
    ensures raised == TaskRaises(run)
    ensures job.state == if TaskFails(run) then "failed" else old(job.state)
    ensures metrics.rows == old(metrics.rows) +
      if MetricRecorded(task, run) then [Metric(job.id, task.datasetUid, task.taskType)] else []
  {
    if run.beforeTry == Raised {
      return true;
    }
    var failed := false;
    if run.inTry == Raised {
      failed := true;
    } else {
      match run.launch
      case LaunchRaised =>
        failed := true;
      case Exited(res) =>
        if task.collectsMetric && run.metricPersisted {
          metrics.rows := metrics.rows + [Metric(job.id, task.datasetUid, task.taskType)];
        }
        if res != 0 {
          failed := true;
        }
    }
    if failed {
      job.state := "failed";
    }
    raised := failed;
  }

  /** A converter that exits with 0 after a clean setup leaves the job as it was and does not raise. */
  lemma CleanRunSucceeds(run: TaskRun)
    requires run.beforeTry == Completed && run.inTry == Completed && run.launch == Exited(0)
    ensures !TaskRaises(run) && !TaskFails(run)
  {
  }

  /** A non-zero exit still records the metric (the `with` body returned) and then fails the job. */
  lemma NonZeroExitRecordsThenFails(task: Task, run: TaskRun)
    requires task.collectsMetric && run.beforeTry == Completed && run.inTry == Completed
    requires run.launch.Exited? && run.launch.code != 0 && run.metricPersisted
    ensures MetricRecorded(task, run) && TaskFails(run)
  {
  }

  /** A metric is never recorded for a launch that raised, nor for a failure before the launch. */
  lemma MetricNeedsLaunchReturn(task: Task, run: TaskRun)
    requires MetricRecorded(task, run)
    ensures run.launch.Exited? && run.beforeTry == Completed && run.inTry == Completed
  {
  }

  /** An error before the `try` (osm2ed's `glob` finding no `.pbf`, a failed unzip in the mimir tasks) propagates without failing the job or recording a metric. */
  lemma ErrorBeforeTryLeavesJob(task: Task, run: TaskRun)
    requires run.beforeTry == Raised
    ensures TaskRaises(run) && !TaskFails(run) && !MetricRecorded(task, run)
  {
  }

  /** Whether the metric commit succeeds never changes the job's outcome. */
  lemma MetricFailureIsSilent(run: TaskRun, persisted: bool)
    ensures TaskFails(run.(metricPersisted := persisted)) == TaskFails(run)
    ensures TaskRaises(run.(metricPersisted := persisted)) == TaskRaises(run)
  {
  }

  /** Converters whose launch runs under `collect_metric`; fare2ed, bano2mimir and osm2mimir do not. */
  function ConverterTask(name: string, datasetUid: Option<string>): Task {
    Task(name, name in {"fusio2ed", "gtfs2ed", "osm2ed", "geopal2ed", "poi2ed", "synonym2ed", "ed2nav"},
         if name == "ed2nav" then None else datasetUid)
  }

  /** Which tasks record a metric, and with which dataset: ed2nav records none, fare2ed and the mimir tasks none at all. */
  lemma ConverterMetrics(name: string, datasetUid: Option<string>, run: TaskRun)
    ensures name in {"fusio2ed", "gtfs2ed", "osm2ed", "geopal2ed", "poi2ed", "synonym2ed"} ==>
      ConverterTask(name, datasetUid) == Task(name, true, datasetUid)
    ensures name == "ed2nav" ==> ConverterTask(name, datasetUid) == Task(name, true, None)
    ensures name in {"fare2ed", "bano2mimir", "osm2mimir"} ==> !MetricRecorded(ConverterTask(name, datasetUid), run)
  {
  }

  // ---------------------------------------------------------------------------
  // reload_data
  // ---------------------------------------------------------------------------

  /** The routing key of the reload message for an instance. */
  function ReloadRoutingKey(instanceName: string): string {
    instanceName + ".task.reload"
  }

  /** The instance a reload routing key addresses. */
  function RoutingKeyInstance(key: string): Option<string> {
    var suffix := ".task.reload";
    if |key| >= |suffix| && key[|key| - |suffix|..] == suffix then Some(key[..|key| - |suffix|]) else None
  }

  /** Every instance gets its own key, and the key names it. */
  lemma RoutingKeyRoundTrip(instanceName: string)
    ensures RoutingKeyInstance(ReloadRoutingKey(instanceName)) == Some(instanceName)
  {
    var key := ReloadRoutingKey(instanceName);
    assert key[|key| - 12..] == ".task.reload";
    assert key[..|key| - 12] == instanceName;
  }

  lemma RoutingKeyInjective(a: string, b: string)
    requires ReloadRoutingKey(a) == ReloadRoutingKey(b)
    ensures a == b
  {
    RoutingKeyRoundTrip(a);
    RoutingKeyRoundTrip(b);
  }

  /** How the broker calls of `reload_data` end: `publish` raises, `release` raises after the publish, or both return. */
  datatype BrokerOutcome = FailsBeforePublish | FailsAfterPublish | BrokerOk

  /** `reload_data`: publish the reload message on the instance's key; any broker error fails the job, even one after the message went out. */
  method ReloadData(job: Job, instanceName: string, broker: BrokerOutcome) returns (published: Option<string>, raised: bool)
    modifies job
    ensures published == if broker == FailsBeforePublish then None else Some(ReloadRoutingKey(instanceName))
    ensures raised <==> broker != BrokerOk
    ensures job.state == if raised then "failed" else old(job.state)
  {
    published := None;
    raised := false;
    if broker != FailsBeforePublish {
      published := Some(instanceName + ".task.reload");
    }
    if broker != BrokerOk {
      job.state := "failed";
      raised := true;
    }
  }
}
