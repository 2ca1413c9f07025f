/** The dependency flattener of the common-messages package: it turns one
    `.msg` file into the text of the type followed by every type it depends
    on, transitively, each after a separator line and a `MSG: pkg/Type`
    header, as `rosmsg show --raw` prints it.

    The directory tree is a `Library` from package directory and file name
    to file text. Message text is parsed by the `Parse` model in its ROS 2
    form, with the builder and the schema equality as parameters. */
module GenDeps {
  import opened Wrappers
  import opened Strings
  import opened MsgDef
  import Parse
  import Ordered

  // ----- type names -----

  /** `getPackageName`: the text before the first `/`. */
  function PackageName(typeName: string): (r: string)
    ensures '/' !in r && StartsWith(typeName, r)
    ensures '/' in typeName ==> r == typeName[..IndexOf(typeName, '/')]
    ensures '/' !in typeName ==> r == typeName
  {
    var r := FirstSegment(typeName, '/');
    assert StartsWith(typeName, r) by {
      if '/' in typeName { assert typeName[..|r|] == r; }
    }
    r
  }

  /** `getBaseType`: the text after the last `/`. */
  function BaseType(typeName: string): (r: string)
    ensures '/' !in r && EndsWith(typeName, r)
    ensures '/' in typeName ==> |r| < |typeName| && typeName[|typeName| - |r| - 1] == '/'
    ensures '/' !in typeName ==> r == typeName
  {
    LastSegment(typeName, '/')
  }

  /** `getFullType`: a qualified name as it is; a relative one under the
      current package; an error without a package. */
  function GetFullType(typeName: string, currentPackage: Option<string>): (r: Result<string>)
    ensures r.Ok? ==> '/' in r.value && EndsWith(r.value, typeName)
    ensures r.Err? <==> '/' !in typeName && (currentPackage.None? || currentPackage.value == "")
  {
    if '/' in typeName then Ok(typeName)
    else if currentPackage.None? || currentPackage.value == "" then Err("Cannot resolve relative type name " + typeName)
    else
      var full := currentPackage.value + "/" + typeName;
      assert full[|currentPackage.value|] == '/';
      assert full[|full| - |typeName|..] == typeName;
      Ok(full)
  }

  /** Qualifying is idempotent: a full name resolves to itself in any package. */
  lemma FullTypeIdempotent(typeName: string, currentPackage: Option<string>, other: Option<string>)
    requires GetFullType(typeName, currentPackage).Ok?
    ensures GetFullType(GetFullType(typeName, currentPackage).value, other) == GetFullType(typeName, currentPackage)
  {
  }

  /** A relative name qualified with a package splits back into that package
      and that base name. */
  lemma {:induction false} FullTypeParts(pkg: string, base: string)
    requires pkg != "" && '/' !in pkg && '/' !in base
    ensures GetFullType(base, Some(pkg)) == Ok(pkg + "/" + base)
    ensures PackageName(pkg + "/" + base) == pkg
    ensures BaseType(pkg + "/" + base) == base
  {
    var full := pkg + "/" + base;
    assert Join([pkg, base], "/") == full;
    SplitJoin([pkg, base], '/');
  }

  // ----- one file -----

  /** What `loadType` reports about one type. */
  datatype TypeInformation = TypeInformation(fullType: string, complexTypes: seq<string>, msgDefinitionString: string)

  /** The `.msg` files: the text of `fileName` found under a package's directory. */
  type Library = map<(string, string), string>

  /** The foreign parts of parsing: the ROS 2 builder and `isMsgDefEqual`. */
  datatype Config = Config(
    buildRos2Type: seq<string> -> Result<MessageDefinition>,
    isMsgDefEqual: (MessageDefinition, MessageDefinition) -> bool)

  /** Names an unnamed first definition with the file's full type. */
  function NameFirst(defs: seq<MessageDefinition>, fullType: string): (r: seq<MessageDefinition>)
    ensures |r| == |defs|
    ensures |r| > 0 ==> r[0].name.Some? && r[0].definitions == defs[0].definitions
    ensures |r| > 0 && defs[0].name.None? ==> r[0].name == Some(fullType)
    ensures forall i :: 0 < i < |r| || (0 <= i < |r| && defs[i].name.Some?) ==> r[i] == defs[i]
  {
    if |defs| > 0 && defs[0].name.None? then defs[0 := defs[0].(name := Some(fullType))] else defs
  }

  /** `msgdef.name ? getPackageName(msgdef.name) : currentPackage`. */
  function ContainerPackage(msgdef: MessageDefinition, currentPackage: string): string {
    if msgdef.name.Some? && msgdef.name.value != "" then PackageName(msgdef.name.value) else currentPackage
  }

  /** How the inner loop of `loadType` keeps a type from being listed twice.
      `RawType` is the script's test, `complexTypes.includes(definition.type)`:
      it looks for the field's type as written among the QUALIFIED names
      listed, so a relative type used twice is listed twice. `FullType` looks
      for the qualified name, as evidently intended. */
  datatype DuplicateCheck = RawType | FullType

  /** The inner loop of `loadType`: each complex field's qualified type is
      appended unless the check finds it listed. */
  function CollectFields(check: DuplicateCheck, acc: seq<string>, fields: seq<Field>, pkg: string): (r: Result<seq<string>>)
    ensures r.Ok? ==> |acc| <= |r.value| && r.value[..|acc|] == acc
  {
    if fields == [] then Ok(acc)
    else
      var prev :- CollectFields(check, acc, fields[..|fields| - 1], pkg);
      var f := fields[|fields| - 1];
      if !f.isComplex || (check.RawType? && f.typ in prev) then Ok(prev)
      else
        var full :- GetFullType(f.typ, Some(pkg));
        if check.FullType? && full in prev then Ok(prev)
        else
          assert (prev + [full])[..|acc|] == prev[..|acc|];
          Ok(prev + [full])
  }

  function ComplexField(name: string, typ: string): Field {
    Field(name, typ, true, false, None, false)
  }

  /** As written, two fields of the same relative type give the same
      dependency twice. */
  lemma DuplicateDependencyAsWritten()
    ensures CollectFields(RawType, [], [ComplexField("a", "Foo"), ComplexField("b", "Foo")], "pkg") == Ok(["pkg/Foo", "pkg/Foo"])
  {
    var f := ComplexField("a", "Foo");
    var g := ComplexField("b", "Foo");
    assert "pkg" != "" by { assert |"pkg"| == 3; }
    assert "pkg" + "/" + "Foo" == "pkg/Foo";
    assert GetFullType("Foo", Some("pkg")) == Ok("pkg/Foo");
    assert [f][..0] == [];
    assert CollectFields(RawType, [], [], "pkg") == Ok([]);
    assert [] + ["pkg/Foo"] == ["pkg/Foo"];
    assert CollectFields(RawType, [], [f], "pkg") == Ok(["pkg/Foo"]);
    assert [f, g][..1] == [f];
    assert "Foo" != "pkg/Foo" by { assert |"Foo"| == 3; }
    assert "Foo" !in ["pkg/Foo"];
    assert g.typ == "Foo" && g.isComplex;
    assert ["pkg/Foo"] + ["pkg/Foo"] == ["pkg/Foo", "pkg/Foo"];
  }

  /** The dependencies collected extend what was there and each new one is
      the full type of a complex field; with the qualified check they are
      also distinct. */
  lemma {:induction false} CollectFieldsFacts(check: DuplicateCheck, acc: seq<string>, fields: seq<Field>, pkg: string)
    requires CollectFields(check, acc, fields, pkg).Ok?
    ensures var r := CollectFields(check, acc, fields, pkg).value;
      && (check.FullType? && Ordered.Distinct(acc) ==> Ordered.Distinct(r))
      && forall t :: t in r && t !in acc ==>
        exists f :: f in fields && f.isComplex && GetFullType(f.typ, Some(pkg)) == Ok(t)
  {
    if fields != [] {
      var front := fields[..|fields| - 1];
      CollectFieldsFacts(check, acc, front, pkg);
      var prev := CollectFields(check, acc, front, pkg).value;
      var f := fields[|fields| - 1];
      var r := CollectFields(check, acc, fields, pkg).value;
      if r != prev {
        var full := GetFullType(f.typ, Some(pkg)).value;
        assert f.isComplex && GetFullType(f.typ, Some(pkg)) == Ok(full);
        assert r == prev + [full];
        assert check.FullType? ==> full !in prev;
      }
      forall t | t in r && t !in acc
        ensures exists g :: g in fields && g.isComplex && GetFullType(g.typ, Some(pkg)) == Ok(t)
      {
        if t in prev {
          var g :| g in front && g.isComplex && GetFullType(g.typ, Some(pkg)) == Ok(t);
          assert g in fields;
        } else {
          assert f in fields;
        }
      }
    }
  }

  /** Every complex field's full type is listed. As written this needs the
      names listed beforehand to be qualified, as they are in `loadType`. */
  lemma {:induction false} CollectFieldsComplete(check: DuplicateCheck, acc: seq<string>, fields: seq<Field>, pkg: string, i: nat)
    requires i < |fields| && fields[i].isComplex
    requires check.RawType? ==> forall t :: t in acc ==> '/' in t
    requires CollectFields(check, acc, fields, pkg).Ok?
    ensures GetFullType(fields[i].typ, Some(pkg)).Ok?
    ensures GetFullType(fields[i].typ, Some(pkg)).value in CollectFields(check, acc, fields, pkg).value
  {
    var front := fields[..|fields| - 1];
    if i < |fields| - 1 {
      assert front[i] == fields[i];
      CollectFieldsComplete(check, acc, front, pkg, i);
    } else {
      var prev := CollectFields(check, acc, front, pkg).value;
      var f := fields[i];
      if check.RawType? && f.typ in prev {
        CollectFieldsFacts(check, acc, front, pkg);
        if f.typ !in acc {
          var g :| g in front && g.isComplex && GetFullType(g.typ, Some(pkg)) == Ok(f.typ);
        }
        assert '/' in f.typ;
      }
    }
  }

  /** Both loops of `loadType` over the parsed definitions. */
  function CollectDefs(check: DuplicateCheck, acc: seq<string>, defs: seq<MessageDefinition>, currentPackage: string): (r: Result<seq<string>>)
    ensures r.Ok? ==> |acc| <= |r.value| && r.value[..|acc|] == acc
  {
    if defs == [] then Ok(acc)
    else
      var prev :- CollectDefs(check, acc, defs[..|defs| - 1], currentPackage);
      var msgdef := defs[|defs| - 1];
      var r := CollectFields(check, prev, msgdef.definitions, ContainerPackage(msgdef, currentPackage));
      assert r.Ok? ==> r.value[..|acc|] == prev[..|acc|];
      r
  }

  /** Every collected type is qualified; with the qualified check they are
      also distinct. */
  lemma {:induction false} CollectDefsDistinct(check: DuplicateCheck, acc: seq<string>, defs: seq<MessageDefinition>, currentPackage: string)
    requires CollectDefs(check, acc, defs, currentPackage).Ok?
    ensures check.FullType? && Ordered.Distinct(acc) ==> Ordered.Distinct(CollectDefs(check, acc, defs, currentPackage).value)
    ensures forall t :: t in CollectDefs(check, acc, defs, currentPackage).value ==> t in acc || '/' in t
  {
    if defs != [] {
      CollectDefsDistinct(check, acc, defs[..|defs| - 1], currentPackage);
      var prev := CollectDefs(check, acc, defs[..|defs| - 1], currentPackage).value;
      var msgdef := defs[|defs| - 1];
      CollectFieldsFacts(check, prev, msgdef.definitions, ContainerPackage(msgdef, currentPackage));
      var r := CollectFields(check, prev, msgdef.definitions, ContainerPackage(msgdef, currentPackage)).value;
      forall t | t in r ensures t in acc || '/' in t {
        if t !in prev {
          var f :| f in msgdef.definitions && f.isComplex && GetFullType(f.typ, Some(ContainerPackage(msgdef, currentPackage))) == Ok(t);
        } else {
          assert t in prev;
        }
      }
    }
  }

  function ParseRos2(cfg: Config, text: string): Result<seq<MessageDefinition>> {
    Parse.ParseResult(Parse.Ros2(cfg.buildRos2Type), cfg.isMsgDefEqual, true, text)
  }

  function MissingFile(typeName: string, currentPackage: string): string {
    "Failed to load definition for type " + typeName + " (current package: " + currentPackage + ")"
  }

  /** `loadType`, as a function of the library and of the duplicate check. */
  function LoadTypeSpec(cfg: Config, lib: Library, check: DuplicateCheck, typeName: string, currentPackage: string): (r: Result<TypeInformation>)
    ensures GetFullType(typeName, Some(currentPackage)).Err? ==> r.Err?
    ensures r.Ok? ==> r.value.fullType == GetFullType(typeName, Some(currentPackage)).value
  {
    var fullType :- GetFullType(typeName, Some(currentPackage));
    var key := (PackageName(fullType), BaseType(typeName) + ".msg");
    if key !in lib then Err(MissingFile(typeName, currentPackage))
    else
      var msgDefinitions :- ParseRos2(cfg, lib[key]);
      var complexTypes :- CollectDefs(check, [], NameFirst(msgDefinitions, fullType), currentPackage);
      Ok(TypeInformation(fullType, complexTypes, lib[key]))
  }

  /** What `loadType` reports: the full type, the file's text and qualified
      dependencies, which are distinct only with the qualified check. */
  lemma LoadTypeFacts(cfg: Config, lib: Library, check: DuplicateCheck, typeName: string, currentPackage: string)
    requires LoadTypeSpec(cfg, lib, check, typeName, currentPackage).Ok?
    ensures var info := LoadTypeSpec(cfg, lib, check, typeName, currentPackage).value;
      && info.fullType == GetFullType(typeName, Some(currentPackage)).value
      && (PackageName(info.fullType), BaseType(typeName) + ".msg") in lib
      && info.msgDefinitionString == lib[(PackageName(info.fullType), BaseType(typeName) + ".msg")]
      && (check.FullType? ==> Ordered.Distinct(info.complexTypes))
      && forall t :: t in info.complexTypes ==> '/' in t
  {
    var fullType := GetFullType(typeName, Some(currentPackage)).value;
    var key := (PackageName(fullType), BaseType(typeName) + ".msg");
    var defs := NameFirst(ParseRos2(cfg, lib[key]).value, fullType);
    CollectDefsDistinct(check, [], defs, currentPackage);
  }

  /** `loadType`: the file's type, its text and the complex types it uses,
      collected with the script's own duplicate test. */
  method LoadType(cfg: Config, lib: Library, typeName: string, currentPackage: string) returns (r: Result<TypeInformation>)
    ensures r.Ok? <==> LoadTypeSpec(cfg, lib, RawType, typeName, currentPackage).Ok?
    ensures r.Ok? ==> r.value == LoadTypeSpec(cfg, lib, RawType, typeName, currentPackage).value
  {
    var fullType :- GetFullType(typeName, Some(currentPackage));
    var packageName := PackageName(fullType);
    var baseType := BaseType(typeName);
    if (packageName, baseType + ".msg") !in lib {
      return Err(MissingFile(typeName, currentPackage));
    }
    var msgDefinitionString := lib[(packageName, baseType + ".msg")];
    var parsed := Parse.Parse(Parse.Ros2(cfg.buildRos2Type), cfg.isMsgDefEqual, true, msgDefinitionString);
    if parsed.Err? {
      return Err(parsed.error);
    }
    var msgDefinitions := parsed.value;
    if |msgDefinitions| > 0 && msgDefinitions[0].name.None? {
      msgDefinitions := msgDefinitions[0 := msgDefinitions[0].(name := Some(fullType))];
    }
    var complexTypes :- CollectComplexTypes(msgDefinitions, currentPackage);
    return Ok(TypeInformation(fullType, complexTypes, msgDefinitionString));
  }

  /** The outer loop of `loadType`, over the parsed definitions. */
  method CollectComplexTypes(msgDefinitions: seq<MessageDefinition>, currentPackage: string) returns (r: Result<seq<string>>)
    ensures r == CollectDefs(RawType, [], msgDefinitions, currentPackage)
  {
    var complexTypes: seq<string> := [];
    for i := 0 to |msgDefinitions|
      invariant CollectDefs(RawType, [], msgDefinitions[..i], currentPackage) == Ok(complexTypes)
    {
      assert msgDefinitions[..i + 1][..i] == msgDefinitions[..i];
      var msgdef := msgDefinitions[i];
      var next := AddFieldTypes(complexTypes, msgdef.definitions, ContainerPackage(msgdef, currentPackage));
      if next.Err? {
        CollectDefsError(RawType, msgDefinitions, currentPackage, i + 1);
        return Err(next.error);
      }
      complexTypes := next.value;
    }
    assert msgDefinitions[..|msgDefinitions|] == msgDefinitions;
    return Ok(complexTypes);
  }

  /** The inner loop of `loadType`, over one definition's fields: a complex
      field is qualified and pushed unless its type as written is listed. */
  method AddFieldTypes(complexTypes: seq<string>, definitions: seq<Field>, containerPackage: string) returns (r: Result<seq<string>>)
    ensures r == CollectFields(RawType, complexTypes, definitions, containerPackage)
  {
    var acc := complexTypes;
    for j := 0 to |definitions|
      invariant CollectFields(RawType, complexTypes, definitions[..j], containerPackage) == Ok(acc)
    {
      assert definitions[..j + 1][..j] == definitions[..j];
      var definition := definitions[j];
      if definition.isComplex && definition.typ !in acc {
        var full := GetFullType(definition.typ, Some(containerPackage));
        if full.Err? {
          CollectFieldsError(RawType, complexTypes, definitions, containerPackage, j + 1);
          return Err(full.error);
        }
        acc := acc + [full.value];
      }
    }
    assert definitions[..|definitions|] == definitions;
    return Ok(acc);
  }

  lemma {:induction false} CollectFieldsError(check: DuplicateCheck, acc: seq<string>, fields: seq<Field>, pkg: string, k: nat)
    requires 0 < k <= |fields|
    requires CollectFields(check, acc, fields[..k - 1], pkg).Ok?
    requires fields[k - 1].isComplex && GetFullType(fields[k - 1].typ, Some(pkg)).Err?
    requires check.RawType? ==> fields[k - 1].typ !in CollectFields(check, acc, fields[..k - 1], pkg).value
    ensures CollectFields(check, acc, fields, pkg) == Err(GetFullType(fields[k - 1].typ, Some(pkg)).error)
    decreases |fields| - k
  {
    assert fields[..k][..k - 1] == fields[..k - 1];
    if k < |fields| {
      var front := fields[..|fields| - 1];
      assert front[..k - 1] == fields[..k - 1] && front[k - 1] == fields[k - 1];
      CollectFieldsError(check, acc, front, pkg, k);
    } else {
      assert fields[..k - 1] == fields[..|fields| - 1];
    }
  }

  lemma {:induction false} CollectDefsError(check: DuplicateCheck, defs: seq<MessageDefinition>, currentPackage: string, k: nat)
    requires 0 < k <= |defs|
    requires CollectDefs(check, [], defs[..k - 1], currentPackage).Ok?
    requires CollectFields(check, CollectDefs(check, [], defs[..k - 1], currentPackage).value,
      defs[k - 1].definitions, ContainerPackage(defs[k - 1], currentPackage)).Err?
    ensures CollectDefs(check, [], defs, currentPackage).Err?
    ensures CollectDefs(check, [], defs, currentPackage).error == CollectFields(check, CollectDefs(check, [], defs[..k - 1], currentPackage).value,
      defs[k - 1].definitions, ContainerPackage(defs[k - 1], currentPackage)).error
    decreases |defs| - k
  {
    assert defs[..k][..k - 1] == defs[..k - 1];
    if k < |defs| {
      var front := defs[..|defs| - 1];
      assert front[..k - 1] == defs[..k - 1] && front[k - 1] == defs[k - 1];
      CollectDefsError(check, front, currentPackage, k);
    } else {
      assert defs[..k - 1] == defs[..|defs| - 1];
    }
  }

  // ----- the worklist -----

  /** Every dependency any successful load reports lies in `universe`: the
      library names finitely many types, which bounds the worklist. */
  ghost predicate Closed(load: string -> Result<TypeInformation>, universe: set<string>) {
    forall t :: load(t).Ok? ==> forall c :: c in load(t).value.complexTypes ==> c in universe
  }

  /** The `for (const complexSubType ...)` loop: unseen names join the back
      of the queue and the seen set. */
  function Enqueue(queue: seq<string>, seen: set<string>, items: seq<string>): (r: (seq<string>, set<string>))
    ensures |queue| <= |r.0| && r.0[..|queue|] == queue
    ensures seen <= r.1
    ensures forall t :: t in r.0[|queue|..] ==> t !in seen && t in items
    ensures forall t :: t in r.0 ==> t in queue || t in items
    ensures forall t :: t in r.1 ==> t in seen || t in r.0[|queue|..]
    ensures forall t :: t in items ==> t in r.1
    ensures Ordered.Distinct(r.0[|queue|..])
    ensures r.1 == seen ==> r.0 == queue
  {
    if items == [] then (queue, seen)
    else
      var prev := Enqueue(queue, seen, items[..|items| - 1]);
      var t := items[|items| - 1];
      assert forall x :: x in items[..|items| - 1] ==> x in items;
      if t in prev.1 then prev
      else
        var q := prev.0 + [t];
        assert q[..|queue|] == queue;
        assert q[|queue|..] == prev.0[|queue|..] + [t];
        assert forall x :: x in q ==> x in prev.0 || x == t;
        (q, prev.1 + {t})
  }

  /** A queue without repeats, all of it seen, stays so, and a seen name in
      the new queue was already queued. */
  lemma EnqueueKeepsDistinct(queue: seq<string>, seen: set<string>, items: seq<string>)
    requires Ordered.Distinct(queue) && forall t :: t in queue ==> t in seen
    ensures var next := Enqueue(queue, seen, items);
      && Ordered.Distinct(next.0)
      && (forall t :: t in next.0 ==> t in next.1)
      && (forall t :: t in next.0 && t in seen ==> t in queue)
  {
    var next := Enqueue(queue, seen, items);
    var q, n := next.0, |queue|;
    forall i, j | 0 <= i < j < |q| ensures q[i] != q[j] {
      assert i < n ==> q[i] == queue[i] && q[i] in seen;
      assert j < n ==> q[j] == queue[j];
      assert i >= n ==> q[i] == q[n..][i - n];
      assert j >= n ==> q[j] == q[n..][j - n] && q[j] !in seen;
    }
    forall t | t in q ensures t in next.1 && (t in seen ==> t in queue) {
      var k :| 0 <= k < |q| && q[k] == t;
      assert k < n ==> t == queue[k];
      assert k >= n ==> t in q[n..];
    }
  }

  /** The measure of the worklist: a step takes one name off the queue, or
      adds a name of the universe to the seen set. */
  lemma EnqueueShrinks(queue: seq<string>, seen: set<string>, items: seq<string>, universe: set<string>)
    requires forall t :: t in items ==> t in universe
    ensures var next := Enqueue(queue, seen, items);
      next.1 == seen || |universe - next.1| < |universe - seen|
  {
    var next := Enqueue(queue, seen, items);
    if next.1 != seen {
      assert next.1 - seen != {};
      var t :| t in next.1 - seen;
      assert t in next.0[|queue|..];
      assert t in universe;
      var smaller := universe - next.1;
      SubsetCard(smaller + {t}, universe - seen);
      assert |smaller + {t}| == |smaller| + 1;
    }
  }

  lemma {:induction false} SubsetCard(a: set<string>, b: set<string>)
    requires a <= b
    ensures |a| <= |b|
    decreases a
  {
    if a != {} {
      var x :| x in a;
      SubsetCard(a - {x}, b - {x});
    }
  }

  /** One step of the worklist stays inside the universe and shrinks the measure. */
  lemma QueueStep(load: string -> Result<TypeInformation>, universe: set<string>, queue: seq<string>, seen: set<string>)
    requires Closed(load, universe) && forall t :: t in queue ==> t in universe
    requires queue != [] && load(queue[0]).Ok?
    ensures var next := Enqueue(queue[1..], seen, load(queue[0]).value.complexTypes);
      && (forall t :: t in next.0 ==> t in universe)
      && (next.1 == seen || |universe - next.1| < |universe - seen|)
  {
    var items := load(queue[0]).value.complexTypes;
    assert forall c :: c in items ==> c in universe;
    assert forall t :: t in queue[1..] ==> t in queue;
    EnqueueShrinks(queue[1..], seen, items, universe);
  }

  /** One dequeued type: the queue entry and what loading it reported. */
  datatype Loaded = Loaded(name: string, info: TypeInformation)

  function Names(ls: seq<Loaded>): (r: seq<string>)
    ensures |r| == |ls| && forall i :: 0 <= i < |ls| ==> r[i] == ls[i].name
  {
    if ls == [] then [] else [ls[0].name] + Names(ls[1..])
  }

  /** The `while` loop: types are taken from the front of the queue and
      loaded, and their unseen dependencies are appended. */
  function Drain(load: string -> Result<TypeInformation>, ghost universe: set<string>, queue: seq<string>, seen: set<string>):
    (r: Result<seq<Loaded>>)
    requires Closed(load, universe)
    requires forall t :: t in queue ==> t in universe
    decreases |universe - seen|, |queue|
  {
    if queue == [] then Ok([])
    else
      var info :- load(queue[0]);
      var next := Enqueue(queue[1..], seen, info.complexTypes);
      QueueStep(load, universe, queue, seen);
      var rest :- Drain(load, universe, next.0, next.1);
      Ok([Loaded(queue[0], info)] + rest)
  }

  /** Every dequeued entry names a type of the universe and holds what
      loading that type reports. */
  lemma {:induction false} DrainLoads(load: string -> Result<TypeInformation>, universe: set<string>, queue: seq<string>, seen: set<string>)
    requires Closed(load, universe)
    requires forall t :: t in queue ==> t in universe
    requires Drain(load, universe, queue, seen).Ok?
    ensures forall l :: l in Drain(load, universe, queue, seen).value ==> l.name in universe && load(l.name) == Ok(l.info)
    decreases |universe - seen|, |queue|
  {
    if queue != [] {
      var info := load(queue[0]).value;
      var next := Enqueue(queue[1..], seen, info.complexTypes);
      QueueStep(load, universe, queue, seen);
      DrainCons(load, universe, queue, seen);
      DrainLoads(load, universe, next.0, next.1);
    }
  }

  /** One step of `Drain`: the head is loaded and the rest follows. */
  lemma DrainCons(load: string -> Result<TypeInformation>, universe: set<string>, queue: seq<string>, seen: set<string>)
    requires Closed(load, universe) && forall t :: t in queue ==> t in universe
    requires queue != [] && load(queue[0]).Ok?
    ensures var next := Enqueue(queue[1..], seen, load(queue[0]).value.complexTypes);
      && (forall t :: t in next.0 ==> t in universe)
      && (Drain(load, universe, next.0, next.1).Ok? <==> Drain(load, universe, queue, seen).Ok?)
      && (Drain(load, universe, next.0, next.1).Ok? ==>
            Drain(load, universe, queue, seen).value == [Loaded(queue[0], load(queue[0]).value)] + Drain(load, universe, next.0, next.1).value)
  {
    QueueStep(load, universe, queue, seen);
  }

  /** The same step, after `done` was dequeued. */
  lemma DrainConsAfter(load: string -> Result<TypeInformation>, universe: set<string>, queue: seq<string>, seen: set<string>,
    done: seq<Loaded>)
    requires Closed(load, universe) && forall t :: t in queue ==> t in universe
    requires queue != [] && load(queue[0]).Ok?
    ensures var next := Enqueue(queue[1..], seen, load(queue[0]).value.complexTypes);
      && (forall t :: t in next.0 ==> t in universe)
      && (Drain(load, universe, next.0, next.1).Ok? <==> Drain(load, universe, queue, seen).Ok?)
      && (Drain(load, universe, next.0, next.1).Ok? ==>
            done + Drain(load, universe, queue, seen).value
            == (done + [Loaded(queue[0], load(queue[0]).value)]) + Drain(load, universe, next.0, next.1).value)
  {
    DrainCons(load, universe, queue, seen);
    var next := Enqueue(queue[1..], seen, load(queue[0]).value.complexTypes);
    var d := Drain(load, universe, next.0, next.1);
    if d.Ok? {
      var l := Loaded(queue[0], load(queue[0]).value);
      Associate(done, [l], d.value);
    }
  }

  lemma Associate(a: seq<Loaded>, b: seq<Loaded>, c: seq<Loaded>)
    ensures a + (b + c) == (a + b) + c
  {
  }

  /** First in, first out: the queue as it stands is dequeued first, in order. */
  lemma {:induction false} DrainFifo(load: string -> Result<TypeInformation>, universe: set<string>, queue: seq<string>, seen: set<string>)
    requires Closed(load, universe)
    requires forall t :: t in queue ==> t in universe
    requires Drain(load, universe, queue, seen).Ok?
    ensures var names := Names(Drain(load, universe, queue, seen).value);
      |queue| <= |names| && names[..|queue|] == queue
    decreases |universe - seen|, |queue|
  {
    if queue != [] {
      assert load(queue[0]).Ok?;
      var info := load(queue[0]).value;
      var next := Enqueue(queue[1..], seen, info.complexTypes);
      QueueStep(load, universe, queue, seen);
      DrainCons(load, universe, queue, seen);
      DrainFifo(load, universe, next.0, next.1);
      var rest := Drain(load, universe, next.0, next.1).value;
      NamesPrefix(Loaded(queue[0], info), rest, next.0, queue[1..]);
    }
  }

  /** Names of `[l] + rest` start with `l`'s name and any prefix of a
      prefix of `rest`'s names. */
  lemma NamesPrefix(l: Loaded, rest: seq<Loaded>, q: seq<string>, tail: seq<string>)
    requires |q| <= |Names(rest)| && Names(rest)[..|q|] == q
    requires |tail| <= |q| && q[..|tail|] == tail
    ensures var names := Names([l] + rest);
      |tail| + 1 <= |names| && names[..|tail| + 1] == [l.name] + tail
  {
    var names := Names([l] + rest);
    assert ([l] + rest)[1..] == rest;
    assert names == [l.name] + Names(rest);
    assert Names(rest)[..|tail|] == tail;
  }

  /** A queue without repeats, all of it already seen, is dequeued without
      repeats, and nothing seen but not queued is dequeued. */
  lemma {:induction false} DrainDistinct(load: string -> Result<TypeInformation>, universe: set<string>, queue: seq<string>, seen: set<string>)
    requires Closed(load, universe)
    requires forall t :: t in queue ==> t in universe
    requires Ordered.Distinct(queue) && forall t :: t in queue ==> t in seen
    requires Drain(load, universe, queue, seen).Ok?
    ensures var names := Names(Drain(load, universe, queue, seen).value);
      Ordered.Distinct(names) && forall t :: t in names && t in seen ==> t in queue
    decreases |universe - seen|, |queue|
  {
    if queue != [] {
      assert load(queue[0]).Ok?;
      var info := load(queue[0]).value;
      var head, tail := queue[0], queue[1..];
      var next := Enqueue(tail, seen, info.complexTypes);
      QueueStep(load, universe, queue, seen);
      DrainCons(load, universe, queue, seen);
      DistinctUncons(queue);
      EnqueueKeepsDistinct(tail, seen, info.complexTypes);
      DrainDistinct(load, universe, next.0, next.1);
      var rest := Drain(load, universe, next.0, next.1).value;
      var l := Loaded(head, info);
      NamesCons(l, rest);
      assert head in seen && seen <= next.1;
      assert head !in Names(rest);
      DistinctCons(head, Names(rest));
      forall t | t in Names([l] + rest) && t in seen ensures t in queue {
        assert t == head || t in Names(rest);
      }
    }
  }

  /** Nothing is left behind: every dependency of a dequeued type was
      already seen when the loop started, or is itself dequeued. */
  lemma {:induction false} DrainClosed(load: string -> Result<TypeInformation>, universe: set<string>, queue: seq<string>, seen: set<string>)
    requires Closed(load, universe)
    requires forall t :: t in queue ==> t in universe
    requires Drain(load, universe, queue, seen).Ok?
    ensures var ls := Drain(load, universe, queue, seen).value;
      forall l, c :: l in ls && c in l.info.complexTypes ==> c in seen || c in Names(ls)
    decreases |universe - seen|, |queue|
  {
    if queue != [] {
      assert load(queue[0]).Ok?;
      var info := load(queue[0]).value;
      var next := Enqueue(queue[1..], seen, info.complexTypes);
      QueueStep(load, universe, queue, seen);
      DrainCons(load, universe, queue, seen);
      DrainClosed(load, universe, next.0, next.1);
      DrainFifo(load, universe, next.0, next.1);
      var rest := Drain(load, universe, next.0, next.1).value;
      var head := Loaded(queue[0], info);
      var ls := [head] + rest;
      NamesCons(head, rest);
      // What the step saw is seen before it, or queued, and so dequeued later.
      forall c | c in next.1 ensures c in seen || c in Names(ls) {
        if c !in seen {
          assert c in next.0[|queue[1..]|..];
          assert c in next.0;
          assert c in Names(rest)[..|next.0|];
        }
      }
      forall l, c | l in ls && c in l.info.complexTypes ensures c in seen || c in Names(ls) {
        if l != head {
          assert l in rest;
        }
      }
    }
  }

  lemma NamesCons(l: Loaded, rest: seq<Loaded>)
    ensures Names([l] + rest) == [l.name] + Names(rest)
  {
    assert ([l] + rest)[1..] == rest;
  }

  /** A queue without repeats: its tail has none, and does not hold its head. */
  lemma DistinctUncons(s: seq<string>)
    requires s != [] && Ordered.Distinct(s)
    ensures Ordered.Distinct(s[1..]) && s[0] !in s[1..]
    ensures forall t :: t in s[1..] ==> t in s
  {
    var tail := s[1..];
    forall i, j | 0 <= i < j < |tail| ensures tail[i] != tail[j] {
      assert tail[i] == s[i + 1] && tail[j] == s[j + 1];
    }
    forall k | 0 <= k < |tail| ensures tail[k] != s[0] {
      assert tail[k] == s[k + 1];
    }
  }

  lemma DistinctCons(x: string, s: seq<string>)
    requires Ordered.Distinct(s) && x !in s
    ensures Ordered.Distinct([x] + s)
  {
    var r := [x] + s;
    forall i, j | 0 <= i < j < |r| ensures r[i] != r[j] {
      assert r[j] == s[j - 1];
      assert i > 0 ==> r[i] == s[i - 1];
    }
  }

  /** `generateMsgDeps` as written: the root's own dependencies are queued
      as listed, without passing through the seen set. */
  function FlattenAsWritten(load: string -> Result<TypeInformation>, ghost universe: set<string>, initial: TypeInformation):
    (r: Result<seq<Loaded>>)
    requires Closed(load, universe) && forall t :: t in initial.complexTypes ==> t in universe
    ensures r.Ok? ==> forall l :: l in r.value ==> l.name in universe && load(l.name) == Ok(l.info)
    ensures r.Ok? ==> |initial.complexTypes| <= |r.value| && Names(r.value)[..|initial.complexTypes|] == initial.complexTypes
    ensures r.Ok? ==> forall l, c :: l in r.value && c in l.info.complexTypes ==> c == initial.fullType || c in Names(r.value)
  {
    var r := Drain(load, universe, initial.complexTypes, {initial.fullType});
    if r.Ok? then
      DrainFifo(load, universe, initial.complexTypes, {initial.fullType});
      DrainLoads(load, universe, initial.complexTypes, {initial.fullType});
      DrainClosed(load, universe, initial.complexTypes, {initial.fullType});
      r
    else r
  }

  /** Root uses A and B; A uses B; B uses nothing. */
  const ExampleLoader: string -> Result<TypeInformation> := t =>
    if t == "p/Root" then Ok(TypeInformation("p/Root", ["p/A", "p/B"], ""))
    else if t == "p/A" then Ok(TypeInformation("p/A", ["p/B"], ""))
    else Ok(TypeInformation(t, [], ""))

  /** A root that uses `B` directly and through `A` gets `B` twice. */
  lemma RepeatedDependencyAsWritten()
    ensures Closed(ExampleLoader, {"p/A", "p/B"})
    ensures FlattenAsWritten(ExampleLoader, {"p/A", "p/B"}, ExampleLoader("p/Root").value).Ok?
    ensures Names(FlattenAsWritten(ExampleLoader, {"p/A", "p/B"}, ExampleLoader("p/Root").value).value) == ["p/A", "p/B", "p/B"]
  {
    var load := ExampleLoader;
    assert "p/A" != "p/Root" by { assert "p/A"[2] != "p/Root"[2]; }
    assert "p/B" != "p/Root" by { assert "p/B"[2] != "p/Root"[2]; }
    assert "p/B" != "p/A" by { assert "p/B"[2] != "p/A"[2]; }
    var a := TypeInformation("p/A", ["p/B"], "");
    var b := TypeInformation("p/B", [], "");
    assert load("p/A") == Ok(a);
    assert load("p/B") == Ok(b);
    var sRoot: set<string> := {"p/Root"};
    var sB: set<string> := {"p/Root", "p/B"};
    assert Enqueue(["p/B"], sRoot, []) == (["p/B"], sRoot);
    assert ["p/B"][..0] == [];
    assert "p/B" !in sRoot;
    assert ["p/B"] + ["p/B"] == ["p/B", "p/B"];
    assert sRoot + {"p/B"} == sB;
    assert Enqueue(["p/B"], sRoot, ["p/B"]) == (["p/B", "p/B"], sB);
    assert Enqueue([], sB, []) == ([], sB);
    assert Enqueue(["p/B"], sB, []) == (["p/B"], sB);
    var root := TypeInformation("p/Root", ["p/A", "p/B"], "");
    assert load("p/Root") == Ok(root);
    var u := {"p/A", "p/B"};
    assert Closed(load, u);
    assert ["p/B", "p/B"][1..] == ["p/B"];
    assert ["p/A", "p/B"][1..] == ["p/B"];
    assert ["p/B"][1..] == [];
    assert Drain(load, u, [], sB) == Ok([]);
    assert [Loaded("p/B", b)] + [] == [Loaded("p/B", b)];
    assert ["p/B"][0] == "p/B";
    assert Enqueue(["p/B"][1..], sB, load("p/B").value.complexTypes) == ([], sB);
    DrainCons(load, u, ["p/B"], sB);
    var nx := Enqueue(["p/B"][1..], sB, load(["p/B"][0]).value.complexTypes);
    assert nx == ([], sB);
    assert Drain(load, u, nx.0, nx.1) == Ok([]);
    assert Drain(load, u, ["p/B"], sB).Ok?;
    assert load(["p/B"][0]).value == b;
    assert Drain(load, u, ["p/B"], sB) == Ok([Loaded("p/B", b)]);
    DrainCons(load, u, ["p/B", "p/B"], sB);
    var nx2 := Enqueue(["p/B", "p/B"][1..], sB, load(["p/B", "p/B"][0]).value.complexTypes);
    assert nx2 == (["p/B"], sB);
    assert [Loaded("p/B", b)] + [Loaded("p/B", b)] == [Loaded("p/B", b), Loaded("p/B", b)];
    assert Drain(load, u, ["p/B", "p/B"], sB) == Ok([Loaded("p/B", b), Loaded("p/B", b)]);
    DrainCons(load, u, ["p/A", "p/B"], sRoot);
    var nx3 := Enqueue(["p/A", "p/B"][1..], sRoot, load(["p/A", "p/B"][0]).value.complexTypes);
    assert load(["p/A", "p/B"][0]).value == a;
    assert nx3 == (["p/B", "p/B"], sB);
    assert [Loaded("p/A", a)] + [Loaded("p/B", b), Loaded("p/B", b)] == [Loaded("p/A", a), Loaded("p/B", b), Loaded("p/B", b)];
    assert Drain(load, u, ["p/A", "p/B"], sRoot) == Ok([Loaded("p/A", a), Loaded("p/B", b), Loaded("p/B", b)]);
  }

  /** `generateMsgDeps` with the root's dependencies passed through the seen
      set like every other type's. */
  function Flatten(load: string -> Result<TypeInformation>, ghost universe: set<string>, initial: TypeInformation):
    (r: Result<seq<Loaded>>)
    requires Closed(load, universe) && forall t :: t in initial.complexTypes ==> t in universe
    ensures r.Ok? ==> forall l :: l in r.value ==> l.name in universe && load(l.name) == Ok(l.info)
    ensures r.Ok? ==> forall c :: c in initial.complexTypes ==> c == initial.fullType || c in Names(r.value)
    ensures r.Ok? ==> forall l, c :: l in r.value && c in l.info.complexTypes ==> c == initial.fullType || c in Names(r.value)
  {
    var start := Enqueue([], {initial.fullType}, initial.complexTypes);
    var r := Drain(load, universe, start.0, start.1);
    if r.Ok? then
      DrainLoads(load, universe, start.0, start.1);
      DrainClosed(load, universe, start.0, start.1);
      DrainFifo(load, universe, start.0, start.1);
      assert start.0[0..] == start.0;
      forall c | c in start.1 ensures c == initial.fullType || c in Names(r.value) {
        if c != initial.fullType {
          assert c in start.0;
          assert c in Names(r.value)[..|start.0|];
        }
      }
      r
    else r
  }

  /** Each dependency is loaded once, the root is never loaded again, and
      every direct dependency of the root is loaded. */
  lemma FlattenOnce(load: string -> Result<TypeInformation>, universe: set<string>, initial: TypeInformation)
    requires Closed(load, universe) && forall t :: t in initial.complexTypes ==> t in universe
    requires Flatten(load, universe, initial).Ok?
    ensures var names := Names(Flatten(load, universe, initial).value);
      Ordered.Distinct(names) && initial.fullType !in names
    ensures forall t :: t in initial.complexTypes && t != initial.fullType ==> t in Names(Flatten(load, universe, initial).value)
  {
    var start := Enqueue([], {initial.fullType}, initial.complexTypes);
    assert start.0[0..] == start.0;
    EnqueueKeepsDistinct([], {initial.fullType}, initial.complexTypes);
    DrainDistinct(load, universe, start.0, start.1);
    DrainFifo(load, universe, start.0, start.1);
    var names := Names(Flatten(load, universe, initial).value);
    assert initial.fullType in start.1 && initial.fullType !in start.0;
    forall t | t in initial.complexTypes && t != initial.fullType ensures t in names {
      assert t in start.0;
      assert start.0 == names[..|start.0|];
      assert t in names[..|start.0|];
    }
  }

  const Delimiter: string := "\n================================================================================\n"

  /** One dependency's text in the output: the separator line, the
      `MSG: pkg/Type` header and the file's text. */
  function Block(info: TypeInformation): string {
    Delimiter + "MSG: " + info.fullType + "\n" + info.msgDefinitionString
  }

  /** The blocks appended after the root's text, one per dequeued type, in order. */
  function Blocks(ls: seq<Loaded>): string {
    if ls == [] then "" else Block(ls[0].info) + Blocks(ls[1..])
  }

  /** Appending a dequeued type appends its block to the output. */
  lemma {:induction false} BlocksAppend(text: string, ls: seq<Loaded>, l: Loaded)
    ensures text + Blocks(ls + [l]) == (text + Blocks(ls)) + Block(l.info)
  {
    BlocksSnoc(ls, l);
  }

  lemma {:induction false} BlocksSnoc(ls: seq<Loaded>, l: Loaded)
    ensures Blocks(ls + [l]) == Blocks(ls) + Block(l.info)
  {
    if ls != [] {
      assert (ls + [l])[1..] == ls[1..] + [l];
      BlocksSnoc(ls[1..], l);
    } else {
      assert Blocks([l]) == Block(l.info) + Blocks([]);
    }
  }

  /** Each block opens with the separator line and names its type. */
  lemma BlockHeader(info: TypeInformation)
    ensures StartsWith(Block(info), Delimiter + "MSG: " + info.fullType + "\n")
    ensures EndsWith(Block(info), info.msgDefinitionString)
  {
    var head := Delimiter + "MSG: " + info.fullType + "\n";
    assert Block(info) == head + info.msgDefinitionString;
    assert Block(info)[..|head|] == head;
    assert Block(info)[|head|..] == info.msgDefinitionString;
  }

  // ----- file names -----

  /** `filename.replace(/\.msg$/, "")`. */
  function StripMsg(s: string): string {
    if EndsWith(s, ".msg") then s[..|s| - 4] else s
  }

  /** `getFullTypeFromFilename`: the root path's segments must lead the
      file's; what follows gives `package/base`. */
  function FullTypeFromFilename(filename: string, rootPath: string, sep: char): (r: Result<string>)
    ensures var pathParts, fileParts := Split(rootPath, sep), Split(StripMsg(filename), sep);
      r.Ok? <==> |pathParts| <= |fileParts| && fileParts[..|pathParts|] == pathParts
  {
    var pathParts := Split(rootPath, sep);
    var fileParts := Split(StripMsg(filename), sep);
    if |pathParts| <= |fileParts| && fileParts[..|pathParts|] == pathParts then
      Ok(TypeFromRest(fileParts[|pathParts|..]))
    else
      Err("<msg-file> \"" + filename + "\" must be under <msgdefs-dir> \"" + rootPath + "\"")
  }

  /** The package segment and the last segment; a missing one prints as `undefined`. */
  function TypeFromRest(rest: seq<string>): string {
    var packageName := if |rest| > 0 then rest[0] else "undefined";
    var afterShift := if |rest| > 0 then rest[1..] else [];
    var baseType := if |afterShift| > 0 then afterShift[|afterShift| - 1] else "undefined";
    packageName + "/" + baseType
  }

  /** `getFullTypeFromFilename`, shifting matched segments off the file's parts. */
  method GetFullTypeFromFilename(filename: string, rootPath: string, sep: char) returns (r: Result<string>)
    ensures r == FullTypeFromFilename(filename, rootPath, sep)
  {
    var pathParts := Split(rootPath, sep);
    var filenameParts := Split(StripMsg(filename), sep);
    ghost var all := filenameParts;
    for i := 0 to |pathParts|
      invariant i <= |all| && filenameParts == all[i..] && all[..i] == pathParts[..i]
    {
      if filenameParts == [] || pathParts[i] != filenameParts[0] {
        assert filenameParts == [] ==> |all| < |pathParts|;
        assert filenameParts != [] && |pathParts| <= |all| ==> all[..|pathParts|][i] == filenameParts[0];
        return Err("<msg-file> \"" + filename + "\" must be under <msgdefs-dir> \"" + rootPath + "\"");
      }
      assert all[..i + 1] == all[..i] + [all[i]];
      assert pathParts[..i + 1] == pathParts[..i] + [pathParts[i]];
      filenameParts := filenameParts[1..];
    }
    assert pathParts[..|pathParts|] == pathParts;
    var packageName := if |filenameParts| > 0 then filenameParts[0] else "undefined";
    if |filenameParts| > 0 {
      filenameParts := filenameParts[1..];
    }
    var baseType := if |filenameParts| > 0 then filenameParts[|filenameParts| - 1] else "undefined";
    return Ok(packageName + "/" + baseType);
  }

  /** A file `root/pkg/.../Base.msg` names the type `pkg/Base`. */
  lemma FileUnderRoot(rootParts: seq<string>, pkg: string, middle: seq<string>, base: string, sep: char)
    requires |rootParts| >= 1 && sep !in pkg && sep !in base
    requires forall i :: 0 <= i < |rootParts| ==> sep !in rootParts[i]
    requires forall i :: 0 <= i < |middle| ==> sep !in middle[i]
    ensures FullTypeFromFilename(Join(rootParts + [pkg] + middle + [base + ".msg"], [sep]), Join(rootParts, [sep]), sep)
      == Ok(pkg + "/" + base)
  {
    var tail := [pkg] + middle + [base];
    var file := Join(rootParts + [pkg] + middle + [base + ".msg"], [sep]);
    FileParts(rootParts, pkg, middle, base, sep);
    SplitJoin(rootParts, sep);
    var fileParts := rootParts + tail;
    assert Split(StripMsg(file), sep) == fileParts;
    assert Split(Join(rootParts, [sep]), sep) == rootParts;
    assert fileParts[..|rootParts|] == rootParts;
    assert fileParts[|rootParts|..] == tail;
    RestType(pkg, middle, base);
  }

  /** The file's parts, once `.msg` is stripped, are the root's then the rest. */
  lemma FileParts(rootParts: seq<string>, pkg: string, middle: seq<string>, base: string, sep: char)
    requires |rootParts| >= 1 && sep !in pkg && sep !in base
    requires forall i :: 0 <= i < |rootParts| ==> sep !in rootParts[i]
    requires forall i :: 0 <= i < |middle| ==> sep !in middle[i]
    ensures Split(StripMsg(Join(rootParts + [pkg] + middle + [base + ".msg"], [sep])), sep) == rootParts + ([pkg] + middle + [base])
  {
    var front := rootParts + [pkg] + middle;
    var tail := [pkg] + middle + [base];
    var parts := front + [base];
    assert parts == rootParts + tail;
    JoinLast(front, base, ".msg", [sep]);
    TailSepFree(pkg, middle, base, sep);
    AppendSepFree(rootParts, tail, sep);
    SplitJoin(parts, sep);
  }

  lemma TailSepFree(pkg: string, middle: seq<string>, base: string, sep: char)
    requires sep !in pkg && sep !in base
    requires forall i :: 0 <= i < |middle| ==> sep !in middle[i]
    ensures var tail := [pkg] + middle + [base]; forall j :: 0 <= j < |tail| ==> sep !in tail[j]
  {
    var mb := middle + [base];
    AppendSepFree(middle, [base], sep);
    AppendSepFree([pkg], mb, sep);
    assert [pkg] + middle + [base] == [pkg] + mb;
  }

  lemma AppendSepFree(a: seq<string>, b: seq<string>, sep: char)
    requires forall i :: 0 <= i < |a| ==> sep !in a[i]
    requires forall i :: 0 <= i < |b| ==> sep !in b[i]
    ensures forall i :: 0 <= i < |a + b| ==> sep !in (a + b)[i]
  {
    forall i | 0 <= i < |a + b| ensures sep !in (a + b)[i] {
      assert i >= |a| ==> (a + b)[i] == b[i - |a|];
    }
  }

  lemma RestType(pkg: string, middle: seq<string>, base: string)
    ensures TypeFromRest([pkg] + middle + [base]) == pkg + "/" + base
  {
    var rest := [pkg] + middle + [base];
    assert rest[0] == pkg;
    assert rest[1..] == middle + [base];
  }

  /** Appending to the last part appends to the joined text. */
  lemma {:induction false} JoinLast(front: seq<string>, last: string, suffix: string, sep: string)
    requires |front| >= 1
    ensures Join(front + [last + suffix], sep) == Join(front + [last], sep) + suffix
    ensures EndsWith(Join(front + [last + suffix], sep), suffix)
    decreases |front|
  {
    var a := front + [last + suffix];
    var b := front + [last];
    if |front| == 1 {
      assert Join(a, sep) == front[0] + sep + (last + suffix);
      assert Join(b, sep) == front[0] + sep + last;
    } else {
      JoinLast(front[1..], last, suffix, sep);
      assert a[1..] == front[1..] + [last + suffix];
      assert b[1..] == front[1..] + [last];
    }
    var j := Join(a, sep);
    assert j[|j| - |suffix|..] == suffix;
  }

  // ----- the whole script -----

  /** `loadType(name, root, getPackageName(name))`, as the loop calls it. */
  function Loader(cfg: Config, lib: Library): string -> Result<TypeInformation> {
    t => LoadTypeSpec(cfg, lib, RawType, t, PackageName(t))
  }

  /** What `generateMsgDeps` returns for a library: the root's text, then one
      block for each dequeued dependency, in queue order. */
  function MsgDeps(cfg: Config, lib: Library, ghost universe: set<string>, rootPath: string, msgFile: string, sep: char):
    (r: Result<string>)
    requires Closed(Loader(cfg, lib), universe)
    ensures FullTypeFromFilename(msgFile, rootPath, sep).Err? ==> r.Err?
    ensures r.Ok? ==> var root := FullTypeFromFilename(msgFile, rootPath, sep);
      && root.Ok? && Loader(cfg, lib)(root.value).Ok?
      && StartsWith(r.value, Loader(cfg, lib)(root.value).value.msgDefinitionString)
  {
    var fullTypeName :- FullTypeFromFilename(msgFile, rootPath, sep);
    var initial :- Loader(cfg, lib)(fullTypeName);
    var loaded :- FlattenAsWritten(Loader(cfg, lib), universe, initial);
    assert (initial.msgDefinitionString + Blocks(loaded))[..|initial.msgDefinitionString|] == initial.msgDefinitionString;
    Ok(initial.msgDefinitionString + Blocks(loaded))
  }

  /** The type each block's `MSG:` line names, in output order. */
  function BlockTypes(ls: seq<Loaded>): (r: seq<string>)
    ensures |r| == |ls| && forall k :: 0 <= k < |ls| ==> r[k] == ls[k].info.fullType
  {
    if ls == [] then [] else [ls[0].info.fullType] + BlockTypes(ls[1..])
  }

  /** Every load reports qualified dependencies. */
  ghost predicate LoadsQualified(load: string -> Result<TypeInformation>) {
    forall t :: load(t).Ok? ==> forall c :: c in load(t).value.complexTypes ==> '/' in c
  }

  lemma LoaderQualified(cfg: Config, lib: Library)
    ensures LoadsQualified(Loader(cfg, lib))
  {
    forall t | Loader(cfg, lib)(t).Ok?
      ensures forall c :: c in Loader(cfg, lib)(t).value.complexTypes ==> '/' in c
    {
      LoadTypeFacts(cfg, lib, RawType, t, PackageName(t));
    }
  }

  /** A queue of qualified names dequeues only qualified names. */
  lemma {:induction false} DrainQualified(load: string -> Result<TypeInformation>, universe: set<string>, queue: seq<string>, seen: set<string>)
    requires Closed(load, universe) && LoadsQualified(load)
    requires forall t :: t in queue ==> t in universe && '/' in t
    requires Drain(load, universe, queue, seen).Ok?
    ensures forall l :: l in Drain(load, universe, queue, seen).value ==> '/' in l.name
    decreases |universe - seen|, |queue|
  {
    if queue != [] {
      var info := load(queue[0]).value;
      var next := Enqueue(queue[1..], seen, info.complexTypes);
      QueueStep(load, universe, queue, seen);
      DrainCons(load, universe, queue, seen);
      assert forall t :: t in next.0 ==> '/' in t by {
        forall t | t in next.0 ensures '/' in t {
          if t in queue[1..] { assert t in queue; }
        }
      }
      DrainQualified(load, universe, next.0, next.1);
      NamesCons(Loaded(queue[0], info), Drain(load, universe, next.0, next.1).value);
    }
  }

  /** The output is the root's text and one block per dequeued type, and
      every dependency of the root and of each emitted type has a block of
      its own, the root apart. */
  lemma MsgDepsClosed(cfg: Config, lib: Library, universe: set<string>, rootPath: string, msgFile: string, sep: char)
    requires Closed(Loader(cfg, lib), universe)
    requires MsgDeps(cfg, lib, universe, rootPath, msgFile, sep).Ok?
    ensures var initial := Loader(cfg, lib)(FullTypeFromFilename(msgFile, rootPath, sep).value).value;
      var loaded := FlattenAsWritten(Loader(cfg, lib), universe, initial).value;
      && MsgDeps(cfg, lib, universe, rootPath, msgFile, sep).value == initial.msgDefinitionString + Blocks(loaded)
      && (forall c :: c in initial.complexTypes ==> c in BlockTypes(loaded))
      && (forall k, c :: 0 <= k < |loaded| && c in loaded[k].info.complexTypes && c != initial.fullType ==> c in BlockTypes(loaded))
  {
    var load := Loader(cfg, lib);
    var root := FullTypeFromFilename(msgFile, rootPath, sep).value;
    var initial := load(root).value;
    var loaded := FlattenAsWritten(load, universe, initial).value;
    assert Names(loaded) == BlockTypes(loaded) by {
      LoaderQualified(cfg, lib);
      DrainQualified(load, universe, initial.complexTypes, {initial.fullType});
      QualifiedBlockTypes(cfg, lib, loaded);
    }
    forall c | c in initial.complexTypes ensures c in BlockTypes(loaded) {
      assert c in Names(loaded)[..|initial.complexTypes|];
    }
    forall k, c | 0 <= k < |loaded| && c in loaded[k].info.complexTypes && c != initial.fullType
      ensures c in BlockTypes(loaded)
    {
      assert loaded[k] in loaded;
    }
  }

  /** A qualified name loads as a type of that very name. */
  lemma QualifiedBlockTypes(cfg: Config, lib: Library, ls: seq<Loaded>)
    requires forall l :: l in ls ==> '/' in l.name && Loader(cfg, lib)(l.name) == Ok(l.info)
    ensures Names(ls) == BlockTypes(ls)
  {
    forall k | 0 <= k < |ls| ensures ls[k].name == ls[k].info.fullType {
      var l := ls[k];
      assert l in ls;
      assert l.info.fullType == GetFullType(l.name, Some(PackageName(l.name))).value;
    }
  }

  /** The `for (const complexSubType ...)` loop over one type's dependencies. */
  method EnqueueAll(queue: seq<string>, seen: set<string>, items: seq<string>) returns (q: seq<string>, s: set<string>)
    ensures (q, s) == Enqueue(queue, seen, items)
  {
    q, s := queue, seen;
    for k := 0 to |items|
      invariant (q, s) == Enqueue(queue, seen, items[..k])
    {
      assert items[..k + 1][..k] == items[..k];
      if items[k] !in s {
        q := q + [items[k]];
        s := s + {items[k]};
      }
    }
    assert items[..|items|] == items;
  }

  /** `load` answers as `loadType` does when given a type's own package. */
  ghost predicate LoadsFrom(load: string -> Result<TypeInformation>, cfg: Config, lib: Library) {
    forall t :: load(t) == LoadTypeSpec(cfg, lib, RawType, t, PackageName(t))
  }

  lemma LoaderLoads(cfg: Config, lib: Library)
    ensures LoadsFrom(Loader(cfg, lib), cfg, lib)
  {
  }

  /** `loadType(complexType, rootPath, getPackageName(complexType))`. */
  method LoadDependency(cfg: Config, lib: Library, ghost load: string -> Result<TypeInformation>, complexType: string)
    returns (r: Result<TypeInformation>)
    requires LoadsFrom(load, cfg, lib)
    ensures r.Ok? <==> load(complexType).Ok?
    ensures r.Ok? ==> r.value == load(complexType).value
  {
    r := LoadType(cfg, lib, complexType, PackageName(complexType));
  }

  /** `generateMsgDeps`: the root's type from the file name, its load, and
      the worklist over its dependencies. */
  method GenerateMsgDeps(cfg: Config, lib: Library, ghost universe: set<string>, rootPath: string, msgFile: string, sep: char)
    returns (r: Result<string>)
    requires Closed(Loader(cfg, lib), universe)
    ensures r.Ok? <==> MsgDeps(cfg, lib, universe, rootPath, msgFile, sep).Ok?
    ensures r.Ok? ==> r.value == MsgDeps(cfg, lib, universe, rootPath, msgFile, sep).value
  {
    var fullTypeName :- GetFullTypeFromFilename(msgFile, rootPath, sep);
    var first := LoadType(cfg, lib, fullTypeName, PackageName(fullTypeName));
    ghost var load := Loader(cfg, lib);
    assert load(fullTypeName).Ok? <==> first.Ok?;
    if first.Err? {
      return Err(first.error);
    }
    var initial := first.value;
    assert load(fullTypeName) == Ok(initial);
    assert forall c :: c in initial.complexTypes ==> c in universe;
    var complexTypes, seenTypes := initial.complexTypes, {initial.fullType};
    assert FlattenAsWritten(load, universe, initial) == Drain(load, universe, complexTypes, seenTypes);
    LoaderLoads(cfg, lib);
    r := DrainQueue(cfg, lib, load, universe, initial.msgDefinitionString, complexTypes, seenTypes);
  }

  /** The worklist loop's invariant: `done` has been dequeued, and what
      remains to dequeue from the current queue completes `spec`. */
  ghost predicate Progress(load: string -> Result<TypeInformation>, universe: set<string>, spec: Result<seq<Loaded>>,
    done: seq<Loaded>, queue: seq<string>, seen: set<string>)
  {
    && Closed(load, universe)
    && (forall t :: t in queue ==> t in universe)
    && (spec.Ok? <==> Drain(load, universe, queue, seen).Ok?)
    && (spec.Ok? ==> spec.value == done + Drain(load, universe, queue, seen).value)
  }

  /** One turn of the loop keeps the invariant and shrinks the measure. */
  lemma ProgressStep(load: string -> Result<TypeInformation>, universe: set<string>, spec: Result<seq<Loaded>>,
    done: seq<Loaded>, queue: seq<string>, seen: set<string>)
    requires Progress(load, universe, spec, done, queue, seen)
    requires queue != [] && load(queue[0]).Ok?
    ensures var next := Enqueue(queue[1..], seen, load(queue[0]).value.complexTypes);
      && Progress(load, universe, spec, done + [Loaded(queue[0], load(queue[0]).value)], next.0, next.1)
      && (next.1 == seen || |universe - next.1| < |universe - seen|)
  {
    QueueStep(load, universe, queue, seen);
    DrainConsAfter(load, universe, queue, seen, done);
  }

  /** The `while` loop of `generateMsgDeps`: each dequeued type's block is
      appended to `output` and its unseen dependencies are queued. */
  method DrainQueue(cfg: Config, lib: Library, ghost load: string -> Result<TypeInformation>, ghost universe: set<string>,
    text: string, queue: seq<string>, seen: set<string>) returns (r: Result<string>)
    requires LoadsFrom(load, cfg, lib)
    requires Closed(load, universe)
    requires forall t :: t in queue ==> t in universe
    ensures r.Ok? <==> Drain(load, universe, queue, seen).Ok?
    ensures r.Ok? ==> r.value == text + Blocks(Drain(load, universe, queue, seen).value)
  {
    ghost var spec := Drain(load, universe, queue, seen);
    var output := text;
    var complexTypes, seenTypes := queue, seen;
    ghost var done: seq<Loaded> := [];
    while complexTypes != []
      invariant Progress(load, universe, spec, done, complexTypes, seenTypes)
      invariant output == text + Blocks(done)
      decreases |universe - seenTypes|, |complexTypes|
    {
      var complexType := complexTypes[0];
      var curRes := LoadDependency(cfg, lib, load, complexType);
      if curRes.Err? {
        return Err(curRes.error);
      }
      var info := curRes.value;
      ProgressStep(load, universe, spec, done, complexTypes, seenTypes);
      ghost var l := Loaded(complexType, info);
      BlocksAppend(text, done, l);
      output := output + Block(info);
      complexTypes, seenTypes := EnqueueAll(complexTypes[1..], seenTypes, info.complexTypes);
      done := done + [l];
    }
    assert done + [] == done;
    return Ok(output);
  }
}
