/** The common-definitions build script: naming each `.msg` file's type from
    its path, and collecting every parsed definition of a group of files into
    one record keyed by type name. Directory listing and file reading are not
    part of this model: the files arrive as (path, text) pairs in listing
    order. Paths use the POSIX separator `/`. */
module MsgsCommon {
  import opened Wrappers
  import opened Strings
  import opened MsgDef
  import Parse
  import GenDeps

  // ----- type names from file names -----

  /** The directories that name a data type: the nearest directory that is
      not `msg`, followed by the `msg` directories below it. */
  function TrailingDirs(dirs: seq<string>): seq<string> {
    if dirs == [] then []
    else if dirs[|dirs| - 1] == "msg" then TrailingDirs(dirs[..|dirs| - 1]) + ["msg"]
    else [dirs[|dirs| - 1]]
  }

  /** `r` is a suffix of `dirs` made of `msg` directories below a first one
      that is not `msg` (unless every directory is `msg`), and is empty only
      when `dirs` is. */
  predicate TrailingShape(dirs: seq<string>, r: seq<string>) {
    |r| <= |dirs| && r == dirs[|dirs| - |r|..]
    && (r == [] <==> dirs == [])
    && (forall i :: 1 <= i < |r| ==> r[i] == "msg")
    && (r != [] && r[0] == "msg" ==> r == dirs)
  }

  /** `TrailingDirs` has that shape. */
  lemma {:induction false} TrailingDirsFacts(dirs: seq<string>)
    ensures TrailingShape(dirs, TrailingDirs(dirs))
  {
    if dirs != [] && dirs[|dirs| - 1] == "msg" {
      var init := dirs[..|dirs| - 1];
      TrailingDirsFacts(init);
      TrailingShapeStep(init, TrailingDirs(init));
      assert dirs == init + ["msg"];
    }
  }

  lemma TrailingShapeStep(init: seq<string>, r0: seq<string>)
    requires TrailingShape(init, r0)
    ensures TrailingShape(init + ["msg"], r0 + ["msg"])
  {
    var dirs, r := init + ["msg"], r0 + ["msg"];
    assert dirs[|dirs| - |r|..] == init[|init| - |r0|..] + ["msg"];
    forall i | 1 <= i < |r| ensures r[i] == "msg" {
      if i < |r0| {
        assert r[i] == r0[i];
      }
    }
    if r0 == [] {
      assert dirs == ["msg"];
    } else if r0[0] == "msg" {
      assert r0 == init;
    }
  }

  /** The data type a file path gives: its trailing directories and its
      base name without `.msg`, joined with `/`. On a final segment, which
      holds no separator, `path.basename(name, ".msg")` is `StripMsg`. */
  function DataTypeOf(filename: string): string {
    SegmentsDataType(Split(filename, '/'))
  }

  /** The data type of a path already split into its segments. */
  function SegmentsDataType(parts: seq<string>): string
    requires |parts| >= 1
  {
    Join(TrailingDirs(parts[..|parts| - 1]), "/") + "/" + GenDeps.StripMsg(parts[|parts| - 1])
  }

  /** `filenameToDataType`: pops the base name, then moves directories to
      the front of the result until one is not `msg`. */
  method FilenameToDataType(filename: string) returns (r: string)
    ensures r == DataTypeOf(filename)
  {
    var parts := Split(filename, '/');
    ghost var dirs := parts[..|parts| - 1];
    var newParts: seq<string> := [];
    var baseTypeName := GenDeps.StripMsg(parts[|parts| - 1]);
    parts := parts[..|parts| - 1];
    while |parts| > 0
      invariant TrailingDirs(dirs) == TrailingDirs(parts) + newParts
      decreases |parts|
    {
      ghost var before := parts;
      var part := parts[|parts| - 1];
      parts := parts[..|parts| - 1];
      newParts := [part] + newParts;
      if part != "msg" {
        assert TrailingDirs(before) == [part];
        assert TrailingDirs(dirs) == newParts;
        break;
      }
    }
    assert TrailingDirs(dirs) == newParts;
    return Join(newParts, "/") + "/" + baseTypeName;
  }

  /** `dataTypeToTypeName`: the first and the last segment, refusing a name
      of one segment and one whose first segment is `msg`. */
  function DataTypeToTypeName(dataType: string): (r: Result<string>)
    ensures r.Ok? <==> '/' in dataType && FirstSegment(dataType, '/') != "msg"
    ensures r.Ok? ==> r.value == FirstSegment(dataType, '/') + "/" + LastSegment(dataType, '/')
  {
    var parts := Split(dataType, '/');
    if |parts| < 2 then Err("Invalid data type: " + dataType)
    else
      var pkg := parts[0];
      if pkg == "msg" then Err("dataType=" + dataType)
      else Ok(pkg + "/" + parts[|parts| - 1])
  }

  /** A type name is two segments, the package and the base name, and is
      its own type name. */
  lemma TypeNameIsTwoSegments(dataType: string)
    requires DataTypeToTypeName(dataType).Ok?
    ensures var t := DataTypeToTypeName(dataType).value;
      Split(t, '/') == [FirstSegment(dataType, '/'), LastSegment(dataType, '/')]
      && DataTypeToTypeName(t) == Ok(t)
  {
    var parts := Split(dataType, '/');
    var pkg, name := parts[0], parts[|parts| - 1];
    var t := pkg + "/" + name;
    assert Join([pkg, name], "/") == t;
    SplitJoin([pkg, name], '/');
  }

  /** A file at `.../<pkg>/msg/<Base>.msg` gives the type `<pkg>/<Base>`. */
  lemma PackageFileTypeName(prefix: seq<string>, pkg: string, base: string)
    requires forall i :: 0 <= i < |prefix| ==> '/' !in prefix[i]
    requires '/' !in pkg && '/' !in base && pkg != "msg"
    ensures DataTypeOf(Join(prefix + [pkg, "msg", base + ".msg"], "/")) == pkg + "/msg/" + base
    ensures DataTypeToTypeName(DataTypeOf(Join(prefix + [pkg, "msg", base + ".msg"], "/"))) == Ok(pkg + "/" + base)
  {
    var parts := prefix + [pkg, "msg", base + ".msg"];
    var path := Join(parts, "/");
    PathSplits(prefix, pkg, base);
    assert DataTypeOf(path) == SegmentsDataType(parts);
    InitOfParts(prefix, pkg, "msg", base + ".msg");
    PackageDirs(prefix, pkg);
    StripMsgOfFile(base);
    DataTypeSplits(pkg, base);
  }

  lemma PathSplits(prefix: seq<string>, pkg: string, base: string)
    requires forall i :: 0 <= i < |prefix| ==> '/' !in prefix[i]
    requires '/' !in pkg && '/' !in base
    ensures Split(Join(prefix + [pkg, "msg", base + ".msg"], "/"), '/') == prefix + [pkg, "msg", base + ".msg"]
  {
    var tail := [pkg, "msg", base + ".msg"];
    PackageFileParts(pkg, base);
    NoSeparatorConcat(prefix, tail, '/');
    SplitJoin(prefix + tail, '/');
  }

  lemma PackageFileParts(pkg: string, base: string)
    requires '/' !in pkg && '/' !in base
    ensures forall i :: 0 <= i < 3 ==> '/' !in [pkg, "msg", base + ".msg"][i]
  {
    var file := base + ".msg";
    assert '/' !in file by {
      assert file == base + ['.', 'm', 's', 'g'];
    }
    assert '/' !in "msg" by {
      assert "msg" == ['m', 's', 'g'];
    }
    var tail := [pkg, "msg", file];
    assert tail[0] == pkg && tail[1] == "msg" && tail[2] == file;
  }

  lemma NoSeparatorConcat(a: seq<string>, b: seq<string>, c: char)
    requires forall i :: 0 <= i < |a| ==> c !in a[i]
    requires forall i :: 0 <= i < |b| ==> c !in b[i]
    ensures forall i :: 0 <= i < |a + b| ==> c !in (a + b)[i]
  {
  }

  lemma InitOfParts(prefix: seq<string>, x: string, y: string, z: string)
    ensures var parts := prefix + [x, y, z];
      parts[..|parts| - 1] == prefix + [x, y] && parts[|parts| - 1] == z
  {
  }

  lemma PackageDirs(prefix: seq<string>, pkg: string)
    requires pkg != "msg"
    ensures TrailingDirs(prefix + [pkg, "msg"]) == [pkg, "msg"]
  {
    var dirs := prefix + [pkg, "msg"];
    assert dirs[..|dirs| - 1] == prefix + [pkg];
  }

  lemma StripMsgOfFile(base: string)
    ensures GenDeps.StripMsg(base + ".msg") == base
  {
    assert (base + ".msg")[|base + ".msg"| - 4..] == ".msg";
    assert (base + ".msg")[..|base|] == base;
  }

  lemma DataTypeSplits(pkg: string, base: string)
    requires '/' !in pkg && '/' !in base && pkg != "msg"
    ensures Join([pkg, "msg"], "/") + "/" + base == pkg + "/msg/" + base
    ensures DataTypeToTypeName(pkg + "/msg/" + base) == Ok(pkg + "/" + base)
  {
    TypeOfPackageJoin(pkg, base);
    NoSeparatorInMsg();
    SplitJoin([pkg, "msg", base], '/');
  }

  lemma NoSeparatorInMsg()
    ensures '/' !in "msg"
  {
    assert "msg" == ['m', 's', 'g'];
  }

  lemma TypeOfPackageJoin(pkg: string, base: string)
    ensures Join([pkg, "msg"], "/") + "/" + base == pkg + "/msg/" + base
    ensures pkg + "/msg/" + base == Join([pkg, "msg", base], "/")
  {
    assert ["msg", base][1..] == [base];
    assert Join(["msg", base], "/") == "msg/" + base;
    assert [pkg, "msg", base][1..] == ["msg", base];
    assert [pkg, "msg"][1..] == ["msg"];
  }

  // ----- exported type names -----

  predicate IsDigit(ch: char) { '0' <= ch <= '9' }

  predicate IsLower(ch: char) { 'a' <= ch <= 'z' }

  /** `toUpperCase` on one character; only ASCII letters are mapped. */
  function ToUpper(ch: char): (r: char)
    ensures IsLower(ch) ==> 'A' <= r <= 'Z' && r as int == ch as int - 32
    ensures !IsLower(ch) ==> r == ch
  {
    if IsLower(ch) then (ch as int - 32) as char else ch
  }

  /** A digit at `i` followed by a lower-case letter: a match of `([0-9])([a-z])`. */
  predicate PairAt(s: string, i: int) {
    0 <= i && i + 1 < |s| && IsDigit(s[i]) && IsLower(s[i + 1])
  }

  /** The non-global `replace(/([0-9])([a-z])/, ...)`: upper-cases the
      letter of the leftmost match only. */
  function UpperAfterFirstDigit(s: string): (r: string)
    ensures |r| == |s|
  {
    if |s| < 2 then s
    else if IsDigit(s[0]) && IsLower(s[1]) then [s[0], ToUpper(s[1])] + s[2..]
    else [s[0]] + UpperAfterFirstDigit(s[1..])
  }

  /** Without a match nothing changes; with one, only the letter of the
      leftmost match is upper-cased. */
  lemma {:induction false} UpperAfterFirstDigitFacts(s: string)
    ensures (forall i :: !PairAt(s, i)) ==> UpperAfterFirstDigit(s) == s
    ensures forall k :: PairAt(s, k) && (forall j :: 0 <= j < k ==> !PairAt(s, j)) ==>
      UpperAfterFirstDigit(s) == s[k + 1 := ToUpper(s[k + 1])]
  {
    if |s| >= 2 {
      if IsDigit(s[0]) && IsLower(s[1]) {
        assert PairAt(s, 0);
        assert [s[0], ToUpper(s[1])] + s[2..] == s[1 := ToUpper(s[1])];
      } else {
        var t := s[1..];
        UpperAfterFirstDigitFacts(t);
        assert forall i :: 0 <= i ==> (PairAt(t, i) <==> PairAt(s, i + 1));
        assert s == [s[0]] + t;
        forall k | PairAt(s, k) && (forall j :: 0 <= j < k ==> !PairAt(s, j))
          ensures UpperAfterFirstDigit(s) == s[k + 1 := ToUpper(s[k + 1])]
        {
          assert k >= 1 && PairAt(t, k - 1);
          forall j | 0 <= j < k - 1 ensures !PairAt(t, j) {
            assert !PairAt(s, j + 1);
          }
          assert [s[0]] + t[k := ToUpper(t[k])] == s[k + 1 := ToUpper(s[k + 1])];
        }
      }
    }
  }

  /** What every exported type name ends with. */
  const ExportSuffix := "MsgCommonDefinitions"

  /** `exportedTypeName`: the group name with its first character and the
      first letter after a digit upper-cased, then `MsgCommonDefinitions`;
      an empty name has no first character. */
  function ExportedTypeName(groupName: string): (r: Result<string>)
    ensures r.Err? <==> groupName == []
    ensures r.Ok? ==>
      |r.value| == |groupName| + 20 && r.value[0] == ToUpper(groupName[0])
      && r.value[1..|groupName|] == UpperAfterFirstDigit(groupName[1..])
      && EndsWith(r.value, ExportSuffix)
  {
    if groupName == [] then Err("Cannot read properties of undefined (reading 'toUpperCase')")
    else
      var camel := [ToUpper(groupName[0])] + UpperAfterFirstDigit(groupName[1..]);
      assert (camel + ExportSuffix)[|camel|..] == ExportSuffix;
      assert (camel + ExportSuffix)[1..|groupName|] == camel[1..];
      Ok(camel + ExportSuffix)
  }

  /** A character that does not start a match is kept as it is. */
  lemma UpperSkip(c: char, t: string)
    requires |t| >= 1 && !(IsDigit(c) && IsLower(t[0]))
    ensures UpperAfterFirstDigit([c] + t) == [c] + UpperAfterFirstDigit(t)
  {
    assert ([c] + t)[1..] == t;
  }

  lemma UpperOs1()
    ensures UpperAfterFirstDigit("os1") == "os1"
  {
    assert "os1" == ['o'] + "s1" && "s1" == ['s'] + "1";
    UpperSkip('s', "1");
    UpperSkip('o', "s1");
  }

  /** The first group name the script exports. */
  lemma ExportedRos1()
    ensures ExportedTypeName("ros1") == Ok("Ros1" + ExportSuffix)
  {
    assert "ros1"[1..] == "os1";
    UpperOs1();
    assert ToUpper('r') == 'R';
    ExportedOf("ros1", "os1");
    assert ['R'] + "os1" == "Ros1";
  }

  lemma ExportedOf(groupName: string, camelTail: string)
    requires groupName != [] && UpperAfterFirstDigit(groupName[1..]) == camelTail
    ensures ExportedTypeName(groupName) == Ok([ToUpper(groupName[0])] + camelTail + ExportSuffix)
  {
  }

  lemma Upper2humble()
    ensures UpperAfterFirstDigit("2humble") == "2Humble"
  {
    assert "2humble"[2..] == "umble";
    assert ToUpper('h') == 'H';
  }

  lemma UpperOs2humble()
    ensures UpperAfterFirstDigit("os2humble") == "os2Humble"
  {
    Os2humbleSpelling();
    Upper2humble();
    UpperSkip('s', "2humble");
    UpperSkip('o', "s2humble");
  }

  lemma Os2humbleSpelling()
    ensures "os2humble" == ['o'] + "s2humble" && "s2humble" == ['s'] + "2humble"
    ensures ['s'] + "2Humble" == "s2Humble" && ['o'] + "s2Humble" == "os2Humble"
  {
  }

  /** A ROS 2 group name: the letter after the digit is upper-cased. */
  lemma ExportedRos2Humble()
    ensures ExportedTypeName("ros2humble") == Ok("Ros2Humble" + ExportSuffix)
  {
    assert "ros2humble"[1..] == "os2humble";
    UpperOs2humble();
    assert ToUpper('r') == 'R';
    ExportedOf("ros2humble", "os2Humble");
    assert ['R'] + "os2Humble" == "Ros2Humble";
  }

  /** Only the first digit-letter match is upper-cased. */
  lemma ExportedOnlyFirstMatch()
    ensures ExportedTypeName("a1b2c") == Ok("A1B2c" + ExportSuffix)
  {
    assert "a1b2c"[1..] == "1b2c" && "1b2c"[2..] == "2c";
    assert ToUpper('b') == 'B';
    assert UpperAfterFirstDigit("1b2c") == "1B2c";
    assert ToUpper('a') == 'A';
    ExportedOf("a1b2c", "1B2c");
    assert ['A'] + "1B2c" == "A1B2c";
  }

  // ----- loading definitions -----

  /** `schema[0].name = typeName`; a schema with no entry has no first. */
  function NameSchema(schema: seq<MessageDefinition>, typeName: string): (r: Result<seq<MessageDefinition>>)
    ensures r.Err? <==> schema == []
    ensures r.Ok? ==>
      |r.value| == |schema| && r.value[0].name == Some(typeName)
      && r.value[0].definitions == schema[0].definitions && r.value[1..] == schema[1..]
  {
    if schema == [] then Err("Cannot set properties of undefined (setting 'name')")
    else Ok(schema[0 := schema[0].(name := Some(typeName))])
  }

  /** The inner loop: each entry stored under its name, refusing an
      unnamed one. */
  function Record(definitions: map<string, MessageDefinition>, schema: seq<MessageDefinition>, failure: string)
    : Result<map<string, MessageDefinition>>
    decreases |schema|
  {
    if schema == [] then Ok(definitions)
    else if schema[0].name.None? then Err(failure)
    else Record(definitions[schema[0].name.value := schema[0]], schema[1..], failure)
  }

  /** Recording fails exactly when some entry has no name. On success every
      entry's name is a key, no key comes from elsewhere, old keys stay,
      and the last entry of a name is the one kept. */
  lemma {:induction false} RecordFacts(definitions: map<string, MessageDefinition>, schema: seq<MessageDefinition>,
    failure: string)
    ensures var r := Record(definitions, schema, failure);
      (r.Err? <==> exists i :: 0 <= i < |schema| && schema[i].name.None?)
      && (r.Ok? ==>
            (forall i :: 0 <= i < |schema| ==> schema[i].name.value in r.value)
            && (forall k :: k in definitions ==> k in r.value)
            && (forall k :: k in r.value ==> k in definitions || exists i :: 0 <= i < |schema| && schema[i].name == Some(k))
            && (schema != [] ==> r.value[schema[|schema| - 1].name.value] == schema[|schema| - 1])
            && (forall k :: k in definitions && (forall i :: 0 <= i < |schema| ==> schema[i].name != Some(k)) ==>
                  r.value[k] == definitions[k]))
    decreases |schema|
  {
    if schema != [] && schema[0].name.Some? {
      var next := definitions[schema[0].name.value := schema[0]];
      var rest := schema[1..];
      RecordFacts(next, rest, failure);
      var r := Record(next, rest, failure);
      assert r == Record(definitions, schema, failure);
      if (exists i :: 0 <= i < |rest| && rest[i].name.None?) {
        var i :| 0 <= i < |rest| && rest[i].name.None?;
        assert schema[i + 1].name.None?;
      }
      if r.Ok? {
        forall k | k in r.value
          ensures k in definitions || exists i :: 0 <= i < |schema| && schema[i].name == Some(k)
        {
          if k !in next {
            var i :| 0 <= i < |rest| && rest[i].name == Some(k);
            assert schema[i + 1].name == Some(k);
          } else if k !in definitions {
            assert schema[0].name == Some(k);
          }
        }
        forall i | 0 <= i < |schema| ensures schema[i].name.value in r.value {
          if i > 0 { assert schema[i] == rest[i - 1]; }
        }
        if rest != [] {
          assert schema[|schema| - 1] == rest[|rest| - 1];
        }
        forall k | k in definitions && (forall i :: 0 <= i < |schema| ==> schema[i].name != Some(k))
          ensures r.value[k] == definitions[k]
        {
          assert schema[0].name != Some(k);
          forall i | 0 <= i < |rest| ensures rest[i].name != Some(k) {
            assert rest[i] == schema[i + 1];
          }
        }
      }
    }
  }

  /** One file: its type name, then its parsed schema, stored. */
  function LoadFile(d: Parse.Dialect, eq: (MessageDefinition, MessageDefinition) -> bool,
    definitions: map<string, MessageDefinition>, filename: string, text: string)
    : Result<map<string, MessageDefinition>>
  {
    var dataType := DataTypeOf(filename);
    var typeName :- DataTypeToTypeName(dataType);
    var schema :- Parse.ParseResult(d, eq, false, text);
    StoreSchema(definitions, dataType, filename, typeName, schema)
  }

  /** A parsed schema with its first entry renamed to the type name, every
      entry recorded. */
  function StoreSchema(definitions: map<string, MessageDefinition>, dataType: string, filename: string,
    typeName: string, schema: seq<MessageDefinition>): Result<map<string, MessageDefinition>>
  {
    var named :- NameSchema(schema, typeName);
    Record(definitions, named, "Failed to parse " + dataType + " from " + filename)
  }

  /** `loadDefinitions`' specification: the files in listing order. */
  function LoadAll(d: Parse.Dialect, eq: (MessageDefinition, MessageDefinition) -> bool,
    definitions: map<string, MessageDefinition>, files: seq<(string, string)>)
    : Result<map<string, MessageDefinition>>
    decreases |files|
  {
    if files == [] then Ok(definitions)
    else
      var next :- LoadFile(d, eq, definitions, files[0].0, files[0].1);
      LoadAll(d, eq, next, files[1..])
  }

  /** Storing fails exactly when the schema is empty or one of its later
      entries has no name. Otherwise the type is recorded under its type
      name with the file's first parsed definitions, unless a later entry
      carries that name too; every later entry is recorded; no key is lost. */
  lemma StoreSchemaFacts(definitions: map<string, MessageDefinition>, dataType: string, filename: string,
    typeName: string, schema: seq<MessageDefinition>)
    ensures var r := StoreSchema(definitions, dataType, filename, typeName, schema);
      (r.Err? <==> schema == [] || exists i :: 1 <= i < |schema| && schema[i].name.None?)
      && (r.Ok? ==>
            typeName in r.value
            && (forall k :: k in definitions ==> k in r.value)
            && (forall i :: 1 <= i < |schema| ==> schema[i].name.value in r.value)
            && ((forall i :: 1 <= i < |schema| ==> schema[i].name != Some(typeName)) ==>
                  r.value[typeName] == MessageDefinition(Some(typeName), schema[0].definitions)))
  {
    if schema != [] {
      var named := NameSchema(schema, typeName).value;
      var failure := "Failed to parse " + dataType + " from " + filename;
      RecordFacts(definitions, named, failure);
      forall i | 1 <= i < |schema| ensures named[i] == schema[i] {
        assert named[1..][i - 1] == schema[1..][i - 1];
      }
      assert named[0].name.Some?;
      var r := Record(definitions, named, failure);
      if r.Ok? && forall i :: 1 <= i < |schema| ==> schema[i].name != Some(typeName) {
        RecordFirstKept(definitions, named, failure);
      }
    }
  }

  /** An entry no later entry renames is the one recorded under its name. */
  lemma {:induction false} RecordFirstKept(definitions: map<string, MessageDefinition>, schema: seq<MessageDefinition>,
    failure: string)
    requires schema != [] && schema[0].name.Some?
    requires forall i :: 1 <= i < |schema| ==> schema[i].name != schema[0].name
    requires Record(definitions, schema, failure).Ok?
    ensures var r := Record(definitions, schema, failure).value;
      schema[0].name.value in r && r[schema[0].name.value] == schema[0]
  {
    var next := definitions[schema[0].name.value := schema[0]];
    var rest := schema[1..];
    RecordFacts(next, rest, failure);
    forall i | 0 <= i < |rest| ensures rest[i].name != Some(schema[0].name.value) {
      assert rest[i] == schema[i + 1];
    }
  }

  /** `loadDefinitions`: every file in turn, every entry of its schema in
      turn, into `definitions`. */
  method LoadDefinitions(d: Parse.Dialect, eq: (MessageDefinition, MessageDefinition) -> bool,
    definitions: map<string, MessageDefinition>, files: seq<(string, string)>)
    returns (r: Result<map<string, MessageDefinition>>)
    ensures r.Ok? <==> LoadAll(d, eq, definitions, files).Ok?
    ensures r.Ok? ==> r.value == LoadAll(d, eq, definitions, files).value
  {
    var defs := definitions;
    for i := 0 to |files|
      invariant LoadAll(d, eq, definitions, files) == LoadAll(d, eq, defs, files[i..])
    {
      assert files[i..][1..] == files[i + 1..];
      var (filename, text) := files[i];
      var dataType := FilenameToDataType(filename);
      var typeName :- DataTypeToTypeName(dataType);
      var schema :- Parse.Parse(d, eq, false, text);
      defs :- StoreEntries(defs, dataType, filename, typeName, schema);
    }
    return Ok(defs);
  }

  /** The renaming and the inner loop of `loadDefinitions`, for one file. */
  method StoreEntries(definitions: map<string, MessageDefinition>, dataType: string, filename: string,
    typeName: string, schema: seq<MessageDefinition>) returns (r: Result<map<string, MessageDefinition>>)
    ensures r == StoreSchema(definitions, dataType, filename, typeName, schema)
  {
    if schema == [] {
      return Err("Cannot set properties of undefined (setting 'name')");
    }
    var named := schema[0 := schema[0].(name := Some(typeName))];
    r := RecordEntries(definitions, named, "Failed to parse " + dataType + " from " + filename);
  }

  /** The inner loop of `loadDefinitions` over one schema. */
  method RecordEntries(definitions: map<string, MessageDefinition>, schema: seq<MessageDefinition>, failure: string)
    returns (r: Result<map<string, MessageDefinition>>)
    ensures r == Record(definitions, schema, failure)
  {
    var defs := definitions;
    for j := 0 to |schema|
      invariant Record(definitions, schema, failure) == Record(defs, schema[j..], failure)
    {
      assert schema[j..][1..] == schema[j + 1..];
      var entry := schema[j];
      if entry.name.None? {
        return Err(failure);
      }
      defs := defs[entry.name.value := entry];
    }
    return Ok(defs);
  }
}
