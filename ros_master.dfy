/** The ROS master: the name registry of the ROS Master API (nodes, services,
    topic types, publishers, subscribers) and the Parameter Server API, as a
    class whose handlers update its maps in place. Every handler first checks
    the argument types the XML-RPC call carries; an argument error is the
    exception the handler throws. */
module RosMaster {
  import opened Wrappers
  import opened Strings
  import opened Bytes
  import opened Ordered

  /** XML-RPC values as the server receives them. A struct is its members in
      enumeration order. */
  datatype XmlRpcValue =
    | XBool(b: bool)
    | XInt(i: int)
    | XDouble(bits: nat)
    | XString(s: string)
    | XDate(millis: int)
    | XBytes(data: seq<byte>)
    | XArray(items: seq<XmlRpcValue>)
    | XStruct(members: seq<Entry>)

  /** One struct member, and one `[key, value]` pair of a parameter listing. */
  datatype Entry = Entry(key: string, value: XmlRpcValue)

  /** `typeof v`. */
  function TypeOf(v: XmlRpcValue): (t: string)
    ensures t == "string" <==> v.XString?
    ensures t == "number" <==> v.XInt? || v.XDouble?
    ensures t == "boolean" <==> v.XBool?
  {
    match v
    case XBool(_) => "boolean"
    case XInt(_) => "number"
    case XDouble(_) => "number"
    case XString(_) => "string"
    case _ => "object"
  }

  /** `isPlainObject(v)`: only an XML-RPC struct arrives as a plain object;
      arrays, dates and byte buffers have other constructors. */
  predicate IsPlainObject(v: XmlRpcValue) { v.XStruct? }

  /** The `[statusCode, statusMessage, value]` triple every handler answers. */
  datatype Response = Response(code: int, statusMessage: string, value: XmlRpcValue)

  // ----- argument checking -----

  const OneString: seq<string> := ["string"]
  const TwoStrings: seq<string> := ["string", "string"]
  const ThreeStrings: seq<string> := ["string", "string", "string"]
  const FourStrings: seq<string> := ["string", "string", "string", "string"]
  const SetParamArgs: seq<string> := ["string", "string", "*"]

  /** The arguments have the expected count, and each has the expected type
      tag unless `*` admits any. */
  predicate Conforms(args: seq<XmlRpcValue>, expected: seq<string>) {
    |args| == |expected| && forall i :: 0 <= i < |args| ==> expected[i] == "*" || TypeOf(args[i]) == expected[i]
  }

  function CountError(args: seq<XmlRpcValue>, expected: seq<string>): string {
    "Expected " + Decimal(|expected|) + " arguments, got " + Decimal(|args|)
  }

  function TypeError(args: seq<XmlRpcValue>, expected: seq<string>, i: nat): string
    requires i < |args| && i < |expected|
  {
    "Expected \"" + expected[i] + "\" for arg " + Decimal(i) + ", got \"" + TypeOf(args[i]) + "\""
  }

  /** `CheckArguments`: no error exactly when the arguments conform; a count
      mismatch is reported first, otherwise the first mistyped position. */
  method CheckArguments(args: seq<XmlRpcValue>, expected: seq<string>) returns (err: Option<string>)
    ensures err.None? <==> Conforms(args, expected)
    ensures |args| != |expected| ==> err == Some(CountError(args, expected))
    ensures |args| == |expected| && err.Some? ==>
      exists i :: 0 <= i < |args| && expected[i] != "*" && TypeOf(args[i]) != expected[i]
        && (forall j :: 0 <= j < i ==> expected[j] == "*" || TypeOf(args[j]) == expected[j])
        && err == Some(TypeError(args, expected, i))
  {
    if |args| != |expected| {
      return Some(CountError(args, expected));
    }
    for i := 0 to |args|
      invariant forall j :: 0 <= j < i ==> expected[j] == "*" || TypeOf(args[j]) == expected[j]
    {
      if expected[i] != "*" && TypeOf(args[i]) != expected[i] {
        return Some(TypeError(args, expected, i));
      }
    }
    return None;
  }

  /** The text of a string argument. */
  function StringArg(args: seq<XmlRpcValue>, i: nat): string
    requires i < |args|
  {
    if args[i].XString? then args[i].s else ""
  }

  // ----- parameter trees -----

  /** `objectToKeyValues(prefix, object)`: every non-struct value nested in
      the struct, under its `prefix/key/...` path, in enumeration order. */
  function Leaves(prefix: string, members: seq<Entry>): seq<Entry>
    decreases members
  {
    if members == [] then []
    else Leaves(prefix, members[..|members| - 1]) + LeavesOf(prefix, members[|members| - 1])
  }

  function LeavesOf(prefix: string, member: Entry): seq<Entry>
    decreases member
  {
    var key := prefix + "/" + member.key;
    if IsPlainObject(member.value) then Leaves(key, member.value.members) else [Entry(key, member.value)]
  }

  /** `objectToKeyValues`, as the `for...in` loop that concatenates onto `entries`. */
  method ObjectToKeyValues(prefix: string, members: seq<Entry>) returns (entries: seq<Entry>)
    ensures entries == Leaves(prefix, members)
    decreases members
  {
    entries := [];
    for i := 0 to |members|
      invariant entries == Leaves(prefix, members[..i])
    {
      assert members[..i + 1][..i] == members[..i];
      var key := prefix + "/" + members[i].key;
      var value := members[i].value;
      if IsPlainObject(value) {
        assert members[i] in members;
        var nested := ObjectToKeyValues(key, value.members);
        entries := entries + nested;
      } else {
        entries := entries + [Entry(key, value)];
      }
    }
    assert members[..|members|] == members;
  }

  lemma StartsWithTrans(s: string, a: string, b: string)
    requires StartsWith(s, a + b)
    ensures StartsWith(s, a)
  {
    assert s[..|a|] == (a + b)[..|a|];
  }

  /** No leaf is a struct, and each sits under `prefix/`. */
  lemma {:induction false} LeavesSound(prefix: string, members: seq<Entry>)
    ensures forall e :: e in Leaves(prefix, members) ==> !IsPlainObject(e.value) && StartsWith(e.key, prefix + "/")
    decreases members
  {
    if members != [] {
      LeavesSound(prefix, members[..|members| - 1]);
      LeavesOfSound(prefix, members[|members| - 1]);
    }
  }

  lemma {:induction false} LeavesOfSound(prefix: string, member: Entry)
    ensures forall e :: e in LeavesOf(prefix, member) ==> !IsPlainObject(e.value) && StartsWith(e.key, prefix + "/")
    decreases member
  {
    var key := prefix + "/" + member.key;
    if IsPlainObject(member.value) {
      LeavesSound(key, member.value.members);
      forall e | e in LeavesOf(prefix, member) ensures StartsWith(e.key, prefix + "/") {
        assert key + "/" == (prefix + "/") + (member.key + "/");
        StartsWithTrans(e.key, prefix + "/", member.key + "/");
      }
    } else {
      assert StartsWith(key, prefix + "/") by { assert key[..|prefix + "/"|] == prefix + "/"; }
    }
  }

  /** Every member appears: a plain value under its own path, a struct
      through all of its leaves. */
  lemma {:induction false} LeavesComplete(prefix: string, members: seq<Entry>, i: nat)
    requires i < |members|
    ensures !IsPlainObject(members[i].value) ==> Entry(prefix + "/" + members[i].key, members[i].value) in Leaves(prefix, members)
    ensures IsPlainObject(members[i].value) ==>
      forall e :: e in Leaves(prefix + "/" + members[i].key, members[i].value.members) ==> e in Leaves(prefix, members)
  {
    var front := members[..|members| - 1];
    if i < |members| - 1 {
      LeavesComplete(prefix, front, i);
      assert front[i] == members[i];
    }
  }

  /** Every leaf comes from one member: its own value, or a leaf of its struct. */
  lemma {:induction false} LeavesOrigin(prefix: string, members: seq<Entry>, e: Entry)
    requires e in Leaves(prefix, members)
    ensures exists i :: 0 <= i < |members| && e in LeavesOf(prefix, members[i])
  {
    var front := members[..|members| - 1];
    if e in Leaves(prefix, front) {
      LeavesOrigin(prefix, front, e);
      var i :| 0 <= i < |front| && e in LeavesOf(prefix, front[i]);
      assert front[i] == members[i];
    } else {
      assert e in LeavesOf(prefix, members[|members| - 1]);
    }
  }

  /** What `setParam` stores for `key` and `value`. */
  function KeyValues(key: string, value: XmlRpcValue): seq<Entry> {
    if IsPlainObject(value) then Leaves(key, value.members) else [Entry(key, value)]
  }

  /** The loop of `setParam` that sets each pair in order. */
  method SetEach(parameters: OMap<XmlRpcValue>, entries: seq<Entry>) returns (r: OMap<XmlRpcValue>)
    requires Ordered.Valid(parameters)
    ensures r == SetAll(parameters, entries)
  {
    r := parameters;
    for i := 0 to |entries|
      invariant r == SetAll(parameters, entries[..i])
    {
      assert entries[..i + 1][..i] == entries[..i];
      r := Put(r, entries[i].key, entries[i].value);
    }
    assert entries[..|entries|] == entries;
  }

  /** The parameters after `parameters.set` for each pair in order. */
  function SetAll(parameters: OMap<XmlRpcValue>, entries: seq<Entry>): (r: OMap<XmlRpcValue>)
    requires Ordered.Valid(parameters)
    ensures Ordered.Valid(r)
  {
    if entries == [] then parameters
    else
      var last := entries[|entries| - 1];
      Put(SetAll(parameters, entries[..|entries| - 1]), last.key, last.value)
  }

  /** The value of the last pair for `key`, if any. */
  function LastValue(entries: seq<Entry>, key: string): Option<XmlRpcValue> {
    if entries == [] then None
    else if entries[|entries| - 1].key == key then Some(entries[|entries| - 1].value)
    else LastValue(entries[..|entries| - 1], key)
  }

  /** After the `setParam` loop a key holds the last value set for it, and
      every other key keeps its old value. */
  lemma {:induction false} SetAllGet(parameters: OMap<XmlRpcValue>, entries: seq<Entry>, key: string)
    requires Ordered.Valid(parameters)
    ensures Get(SetAll(parameters, entries), key) ==
      if LastValue(entries, key).Some? then LastValue(entries, key) else Get(parameters, key)
  {
    if entries != [] {
      SetAllGet(parameters, entries[..|entries| - 1], key);
    }
  }

  /** A value that is not a struct is stored under the key itself. */
  lemma PlainValueStored(parameters: OMap<XmlRpcValue>, key: string, value: XmlRpcValue)
    requires Ordered.Valid(parameters) && !IsPlainObject(value)
    ensures Get(SetAll(parameters, KeyValues(key, value)), key) == Some(value)
    ensures forall k :: k != key ==> Get(SetAll(parameters, KeyValues(key, value)), k) == Get(parameters, k)
  {
    assert KeyValues(key, value)[..0] == [];
  }

  /** A struct value stores only leaves under `key/`, never `key` itself. */
  lemma StructValueStored(parameters: OMap<XmlRpcValue>, key: string, value: XmlRpcValue, k: string)
    requires Ordered.Valid(parameters) && IsPlainObject(value)
    requires !StartsWith(k, key + "/")
    ensures Get(SetAll(parameters, KeyValues(key, value)), k) == Get(parameters, k)
  {
    LeavesSound(key, value.members);
    SetAllGet(parameters, KeyValues(key, value), k);
    LastValueFound(KeyValues(key, value), k);
  }

  lemma {:induction false} LastValueFound(entries: seq<Entry>, key: string)
    ensures LastValue(entries, key).Some? ==> Entry(key, LastValue(entries, key).value) in entries
  {
    if entries != [] {
      LastValueFound(entries[..|entries| - 1], key);
    }
  }

  // ----- answers built from the registry -----

  /** `names.map((n) => nodes.get(n)).filter((a) => a != undefined)`. */
  function NodeApis(nodes: map<string, string>, names: seq<string>): (r: seq<XmlRpcValue>)
    ensures forall a :: a in r <==> exists n :: n in names && n in nodes && a == XString(nodes[n])
  {
    if names == [] then []
    else
      var front := names[..|names| - 1];
      var n := names[|names| - 1];
      assert names == front + [n];
      NodeApis(nodes, front) + (if n in nodes then [XString(nodes[n])] else [])
  }

  /** When every name is a known node, there is one API per name, in order. */
  lemma {:induction false} NodeApisAllKnown(nodes: map<string, string>, names: seq<string>)
    requires forall n :: n in names ==> n in nodes
    ensures |NodeApis(nodes, names)| == |names|
    ensures forall i :: 0 <= i < |names| ==> NodeApis(nodes, names)[i] == XString(nodes[names[i]])
  {
    if names != [] {
      var front := names[..|names| - 1];
      assert forall n :: n in front ==> n in names;
      NodeApisAllKnown(nodes, front);
    }
  }

  function StringsArray(names: seq<string>): (r: XmlRpcValue)
    ensures r.XArray? && |r.items| == |names| && forall i :: 0 <= i < |names| ==> r.items[i] == XString(names[i])
  {
    XArray(seq(|names|, i requires 0 <= i < |names| => XString(names[i])))
  }

  function Pair(a: string, b: XmlRpcValue): XmlRpcValue { XArray([XString(a), b]) }

  /** `[topic, sorted node names]` for each topic, in registration order. */
  function TopicNodes(m: OMap<seq<string>>): (r: seq<XmlRpcValue>)
    requires Ordered.Valid(m)
    ensures |r| == |m.keys|
    ensures forall i :: 0 <= i < |r| ==>
      var names := Sort(m.values[m.keys[i]]);
      r[i] == Pair(m.keys[i], StringsArray(names))
        && Sorted(names) && multiset(names) == multiset(m.values[m.keys[i]])
  {
    seq(|m.keys|, i requires 0 <= i < |m.keys| => Pair(m.keys[i], StringsArray(Sort(m.values[m.keys[i]]))))
  }

  /** `[service, sorted provider node names]` for each service. */
  function ServiceNodes(m: OMap<OMap<string>>): (r: seq<XmlRpcValue>)
    requires Ordered.Valid(m)
    ensures |r| == |m.keys|
    ensures forall i :: 0 <= i < |r| ==>
      var names := Sort(m.values[m.keys[i]].keys);
      r[i] == Pair(m.keys[i], StringsArray(names))
        && Sorted(names) && multiset(names) == multiset(m.values[m.keys[i]].keys)
  {
    seq(|m.keys|, i requires 0 <= i < |m.keys| => Pair(m.keys[i], StringsArray(Sort(m.values[m.keys[i]].keys))))
  }

  function ProvidersOf(services: OMap<OMap<string>>, service: string): OMap<string> {
    Get(services, service).GetOr(Empty())
  }

  function MembersOf(m: OMap<seq<string>>, topic: string): seq<string> {
    Get(m, topic).GetOr([])
  }

  function TypeMismatch(topicType: string, topic: string, dataType: string): string {
    "topic_type \"" + topicType + "\" for topic \"" + topic + "\" does not match \"" + dataType + "\""
  }

  // ----- the registry's invariant -----

  ghost predicate ServicesOk(services: OMap<OMap<string>>, nodes: map<string, string>) {
    && Ordered.Valid(services)
    && (forall s :: s in services.values ==> Ordered.Valid(services.values[s]) && services.values[s].keys != [])
    && (forall s, n :: s in services.values && n in services.values[s].values ==> n in nodes)
  }

  ghost predicate MembersOk(m: OMap<seq<string>>, nodes: map<string, string>) {
    && Ordered.Valid(m)
    && (forall t :: t in m.values ==> Distinct(m.values[t]) && m.values[t] != [])
    && (forall t, n :: t in m.values && n in m.values[t] ==> n in nodes)
  }

  ghost predicate TypedOk(publications: OMap<seq<string>>, topics: OMap<string>) {
    Ordered.Valid(topics) && forall t :: t in publications.values ==> t in topics.values
  }

  lemma NodesGrow(services: OMap<OMap<string>>, publications: OMap<seq<string>>, subscriptions: OMap<seq<string>>,
    nodes: map<string, string>, callerId: string, callerApi: string)
    requires ServicesOk(services, nodes) && MembersOk(publications, nodes) && MembersOk(subscriptions, nodes)
    ensures var grown := nodes[callerId := callerApi];
      ServicesOk(services, grown) && MembersOk(publications, grown) && MembersOk(subscriptions, grown)
  {
  }

  /** Registering valid, non-empty providers of known nodes keeps the services valid. */
  lemma ServicesPut(services: OMap<OMap<string>>, nodes: map<string, string>, service: string, providers: OMap<string>)
    requires ServicesOk(services, nodes)
    requires Ordered.Valid(providers) && providers.keys != [] && forall n :: n in providers.values ==> n in nodes
    ensures ServicesOk(Put(services, service, providers), nodes)
  {
    var r := Put(services, service, providers);
    assert r.values == services.values[service := providers];
  }

  lemma ServicesRemove(services: OMap<OMap<string>>, nodes: map<string, string>, service: string)
    requires ServicesOk(services, nodes)
    ensures ServicesOk(Remove(services, service), nodes)
  {
    var r := Remove(services, service);
    assert r.values == services.values - {service};
  }

  lemma ServiceRegistered(services: OMap<OMap<string>>, nodes: map<string, string>,
    service: string, callerId: string, serviceApi: string, callerApi: string)
    requires ServicesOk(services, nodes)
    ensures ServicesOk(Put(services, service, Put(ProvidersOf(services, service), callerId, serviceApi)), nodes[callerId := callerApi])
  {
    var grown := nodes[callerId := callerApi];
    assert ServicesOk(services, grown);
    var current := ProvidersOf(services, service);
    var providers := Put(current, callerId, serviceApi);
    assert Ordered.Valid(current) && forall n :: n in current.values ==> n in grown;
    assert providers.values == current.values[callerId := serviceApi];
    ServicesPut(services, grown, service, providers);
  }

  lemma ServiceUnregistered(services: OMap<OMap<string>>, nodes: map<string, string>, service: string, callerId: string)
    requires ServicesOk(services, nodes) && service in services.values
    ensures var left := Remove(services.values[service], callerId);
      ServicesOk(if left.keys == [] then Remove(services, service) else Put(services, service, left), nodes)
  {
    var providers := services.values[service];
    var left := Remove(providers, callerId);
    if left.keys == [] {
      ServicesRemove(services, nodes, service);
    } else {
      assert left.values == providers.values - {callerId};
      ServicesPut(services, nodes, service, left);
    }
  }

  /** Setting distinct, non-empty members that are known nodes keeps the table valid. */
  lemma MembersPut(m: OMap<seq<string>>, nodes: map<string, string>, topic: string, members: seq<string>)
    requires MembersOk(m, nodes)
    requires Distinct(members) && members != [] && forall n :: n in members ==> n in nodes
    ensures MembersOk(Put(m, topic, members), nodes)
  {
    var r := Put(m, topic, members);
    assert r.values == m.values[topic := members];
  }

  lemma MembersRemove(m: OMap<seq<string>>, nodes: map<string, string>, topic: string)
    requires MembersOk(m, nodes)
    ensures MembersOk(Remove(m, topic), nodes)
  {
    var r := Remove(m, topic);
    assert r.values == m.values - {topic};
  }

  lemma MemberAdded(m: OMap<seq<string>>, nodes: map<string, string>, topic: string, callerId: string, callerApi: string)
    requires MembersOk(m, nodes)
    ensures MembersOk(Put(m, topic, Add(MembersOf(m, topic), callerId)), nodes[callerId := callerApi])
  {
    var grown := nodes[callerId := callerApi];
    assert MembersOk(m, grown);
    var members := MembersOf(m, topic);
    assert Distinct(members) && forall n :: n in members ==> n in grown;
    MembersPut(m, grown, topic, Add(members, callerId));
  }

  lemma MemberRemoved(m: OMap<seq<string>>, nodes: map<string, string>, topic: string, callerId: string)
    requires MembersOk(m, nodes) && topic in m.values
    ensures var left := Without(m.values[topic], callerId);
      MembersOk(if left == [] then Remove(m, topic) else Put(m, topic, left), nodes)
  {
    var left := Without(m.values[topic], callerId);
    WithoutDistinct(m.values[topic], callerId);
    if left == [] {
      MembersRemove(m, nodes, topic);
    } else {
      MembersPut(m, nodes, topic, left);
    }
  }

  /** The registry invariants survive `registerPublisher`'s three updates. */
  lemma PublisherRegistered(services: OMap<OMap<string>>, publications: OMap<seq<string>>,
    subscriptions: OMap<seq<string>>, topics: OMap<string>, nodes: map<string, string>,
    topic: string, topicType: string, callerId: string, callerApi: string)
    requires ServicesOk(services, nodes) && MembersOk(publications, nodes) && MembersOk(subscriptions, nodes)
    requires TypedOk(publications, topics)
    ensures var p, grown := Put(publications, topic, Add(MembersOf(publications, topic), callerId)), nodes[callerId := callerApi];
      ServicesOk(services, grown) && MembersOk(p, grown) && MembersOk(subscriptions, grown)
      && TypedOk(p, Put(topics, topic, topicType))
  {
    MemberAdded(publications, nodes, topic, callerId, callerApi);
    NodesGrow(services, publications, subscriptions, nodes, callerId, callerApi);
    TypeRecorded(publications, topics, topic, topicType, callerId);
  }

  lemma TypeRecorded(publications: OMap<seq<string>>, topics: OMap<string>, topic: string, topicType: string, callerId: string)
    requires TypedOk(publications, topics) && Ordered.Valid(publications) && Distinct(MembersOf(publications, topic))
    ensures TypedOk(Put(publications, topic, Add(MembersOf(publications, topic), callerId)), Put(topics, topic, topicType))
  {
    var r := Put(publications, topic, Add(MembersOf(publications, topic), callerId));
    var tt := Put(topics, topic, topicType);
    forall t | t in r.values ensures t in tt.values {
      if t != topic {
        assert Get(r, t) == Get(publications, t);
        assert Get(tt, t) == Get(topics, t);
      }
    }
  }

  lemma PublisherDropped(publications: OMap<seq<string>>, topics: OMap<string>, topic: string, callerId: string)
    requires TypedOk(publications, topics) && Ordered.Valid(publications) && topic in publications.values
    ensures var left := Without(publications.values[topic], callerId);
      TypedOk(if left == [] then Remove(publications, topic) else Put(publications, topic, left), topics)
  {
    var left := Without(publications.values[topic], callerId);
    var r := if left == [] then Remove(publications, topic) else Put(publications, topic, left);
    forall t | t in r.values ensures t in topics.values {
      assert Get(r, t).Some?;
      if t != topic {
        assert Get(r, t) == Get(publications, t);
      }
    }
  }

  // ----- the server -----

  class RosMaster {
    var nodes: map<string, string>
    var services: OMap<OMap<string>>
    var topics: OMap<string>
    var publications: OMap<seq<string>>
    var subscriptions: OMap<seq<string>>
    var parameters: OMap<XmlRpcValue>
    var paramSubscriptions: map<string, map<string, string>>
    var url: Option<string>

    /** The maps are well formed; no service, publication or subscription
        entry is ever empty; every registered caller is a known node; and
        every published topic has a recorded type. */
    ghost predicate Valid()
      reads this
    {
      && ServicesOk(services, nodes)
      && MembersOk(publications, nodes)
      && MembersOk(subscriptions, nodes)
      && TypedOk(publications, topics)
      && Ordered.Valid(parameters)
    }

    constructor ()
      ensures Valid()
      ensures nodes == map[] && services.keys == [] && topics.keys == [] && publications.keys == []
      ensures subscriptions.keys == [] && parameters.keys == [] && paramSubscriptions == map[] && url.None?
    {
      nodes := map[];
      services := Empty();
      topics := Empty();
      publications := Empty();
      subscriptions := Empty();
      parameters := Empty();
      paramSubscriptions := map[];
      url := None;
    }

    /** The address `start` records once the server listens on `port`. */
    method Start(hostname: string, port: nat)
      modifies this`url
      ensures url == Some("http://" + hostname + ":" + Decimal(port) + "/")
    {
      url := Some("http://" + hostname + ":" + Decimal(port) + "/");
    }

    // ----- Master API -----

    /** `registerService`: the caller provides the service at `serviceApi`
        and is reachable at `callerApi`. */
    method RegisterService(args: seq<XmlRpcValue>) returns (r: Result<Response>)
      requires Valid()
      modifies this`services, this`nodes
      ensures Valid()
      ensures !Conforms(args, FourStrings) ==> r.Err? && services == old(services) && nodes == old(nodes)
      ensures Conforms(args, FourStrings) ==>
        var callerId, service, serviceApi, callerApi := StringArg(args, 0), StringArg(args, 1), StringArg(args, 2), StringArg(args, 3);
        && r == Ok(Response(1, "", XInt(0)))
        && services == Put(old(services), service, Put(ProvidersOf(old(services), service), callerId, serviceApi))
        && nodes == old(nodes)[callerId := callerApi]
    {
      var err := CheckArguments(args, FourStrings);
      if err.Some? {
        return Err(err.value);
      }
      var callerId, service, serviceApi, callerApi := StringArg(args, 0), StringArg(args, 1), StringArg(args, 2), StringArg(args, 3);
      // the provider map, created empty when the service is new
      var serviceProviders := ProvidersOf(services, service);
      ServiceRegistered(services, nodes, service, callerId, serviceApi, callerApi);
      NodesGrow(services, publications, subscriptions, nodes, callerId, callerApi);
      services := Put(services, service, Put(serviceProviders, callerId, serviceApi));
      nodes := nodes[callerId := callerApi];
      return Ok(Response(1, "", XInt(0)));
    }

    /** `unregisterService`: answers 1 exactly when the caller was a provider;
        a service left without providers is forgotten. */
    method UnregisterService(args: seq<XmlRpcValue>) returns (r: Result<Response>)
      requires Valid()
      modifies this`services
      ensures Valid()
      ensures !Conforms(args, ThreeStrings) ==> r.Err? && services == old(services)
      ensures Conforms(args, ThreeStrings) ==>
        var callerId, service := StringArg(args, 0), StringArg(args, 1);
        match Get(old(services), service)
        case None => r == Ok(Response(1, "", XInt(0))) && services == old(services)
        case Some(providers) =>
          var left := Remove(providers, callerId);
          && r == Ok(Response(1, "", XInt(if callerId in providers.values then 1 else 0)))
          && services == if left.keys == [] then Remove(old(services), service) else Put(old(services), service, left)
    {
      var err := CheckArguments(args, ThreeStrings);
      if err.Some? {
        return Err(err.value);
      }
      var callerId, service := StringArg(args, 0), StringArg(args, 1);
      var serviceProviders := Get(services, service);
      if serviceProviders.None? {
        return Ok(Response(1, "", XInt(0)));
      }
      var removed := callerId in serviceProviders.value.values;
      var left := Remove(serviceProviders.value, callerId);
      ServiceUnregistered(services, nodes, service, callerId);
      services := Put(services, service, left);
      if left.keys == [] {
        RemoveAfterPut(old(services), service, left);
        services := Remove(services, service);
      }
      return Ok(Response(1, "", XInt(if removed then 1 else 0)));
    }

    /** `registerSubscriber`: refused with code 0 and no change when the
        topic's recorded type differs; otherwise the caller joins the
        subscribers and receives the APIs of the current publishers. */
    method RegisterSubscriber(args: seq<XmlRpcValue>) returns (r: Result<Response>)
      requires Valid()
      modifies this`subscriptions, this`nodes
      ensures Valid()
      ensures !Conforms(args, FourStrings) ==> r.Err? && subscriptions == old(subscriptions) && nodes == old(nodes)
      ensures Conforms(args, FourStrings) ==>
        var callerId, topic, topicType, callerApi := StringArg(args, 0), StringArg(args, 1), StringArg(args, 2), StringArg(args, 3);
        var dataType := Get(topics, topic);
        if dataType.Some? && dataType.value != topicType then
          && r == Ok(Response(0, TypeMismatch(topicType, topic, dataType.value), XArray([])))
          && subscriptions == old(subscriptions) && nodes == old(nodes)
        else
          && subscriptions == Put(old(subscriptions), topic, Add(MembersOf(old(subscriptions), topic), callerId))
          && nodes == old(nodes)[callerId := callerApi]
          && r == Ok(Response(1, "", XArray(NodeApis(nodes, MembersOf(publications, topic)))))
    {
      var err := CheckArguments(args, FourStrings);
      if err.Some? {
        return Err(err.value);
      }
      var callerId, topic, topicType, callerApi := StringArg(args, 0), StringArg(args, 1), StringArg(args, 2), StringArg(args, 3);
      var dataType := Get(topics, topic);
      if dataType.Some? && dataType.value != topicType {
        return Ok(Response(0, TypeMismatch(topicType, topic, dataType.value), XArray([])));
      }
      var subscribers := MembersOf(subscriptions, topic);
      MemberAdded(subscriptions, nodes, topic, callerId, callerApi);
      NodesGrow(services, publications, subscriptions, nodes, callerId, callerApi);
      subscriptions := Put(subscriptions, topic, Add(subscribers, callerId));
      nodes := nodes[callerId := callerApi];
      var publishers := MembersOf(publications, topic);
      var publisherApis := NodeApis(nodes, publishers);
      return Ok(Response(1, "", XArray(publisherApis)));
    }

    /** `unregisterSubscriber`: answers 1 exactly when the caller was
        subscribed; a topic left without subscribers is forgotten. */
    method UnregisterSubscriber(args: seq<XmlRpcValue>) returns (r: Result<Response>)
      requires Valid()
      modifies this`subscriptions
      ensures Valid()
      ensures !Conforms(args, ThreeStrings) ==> r.Err? && subscriptions == old(subscriptions)
      ensures Conforms(args, ThreeStrings) ==>
        var callerId, topic := StringArg(args, 0), StringArg(args, 1);
        match Get(old(subscriptions), topic)
        case None => r == Ok(Response(1, "", XInt(0))) && subscriptions == old(subscriptions)
        case Some(subscribers) =>
          var left := Without(subscribers, callerId);
          && r == Ok(Response(1, "", XInt(if callerId in subscribers then 1 else 0)))
          && subscriptions == if left == [] then Remove(old(subscriptions), topic) else Put(old(subscriptions), topic, left)
    {
      var err := CheckArguments(args, ThreeStrings);
      if err.Some? {
        return Err(err.value);
      }
      var callerId, topic := StringArg(args, 0), StringArg(args, 1);
      var subscribers := Get(subscriptions, topic);
      if subscribers.None? {
        return Ok(Response(1, "", XInt(0)));
      }
      var removed := callerId in subscribers.value;
      var left := Without(subscribers.value, callerId);
      MemberRemoved(subscriptions, nodes, topic, callerId);
      subscriptions := Put(subscriptions, topic, left);
      if left == [] {
        RemoveAfterPut(old(subscriptions), topic, left);
        subscriptions := Remove(subscriptions, topic);
      }
      return Ok(Response(1, "", XInt(if removed then 1 else 0)));
    }

    /** `registerPublisher`: refused with code 0 and no change when the
        topic's recorded type differs; otherwise the caller joins the
        publishers, the type is recorded, and the answer lists the APIs of
        the current subscribers. */
    method RegisterPublisher(args: seq<XmlRpcValue>) returns (r: Result<Response>)
      requires Valid()
      modifies this`publications, this`topics, this`nodes
      ensures Valid()
      ensures !Conforms(args, FourStrings) ==> r.Err? && publications == old(publications) && topics == old(topics) && nodes == old(nodes)
      ensures Conforms(args, FourStrings) ==>
        var callerId, topic, topicType, callerApi := StringArg(args, 0), StringArg(args, 1), StringArg(args, 2), StringArg(args, 3);
        var dataType := Get(old(topics), topic);
        if dataType.Some? && dataType.value != topicType then
          && r == Ok(Response(0, TypeMismatch(topicType, topic, dataType.value), XArray([])))
          && publications == old(publications) && topics == old(topics) && nodes == old(nodes)
        else
          && publications == Put(old(publications), topic, Add(MembersOf(old(publications), topic), callerId))
          && topics == Put(old(topics), topic, topicType)
          && nodes == old(nodes)[callerId := callerApi]
          && r == Ok(Response(1, "", XArray(NodeApis(nodes, MembersOf(subscriptions, topic)))))
    {
      var err := CheckArguments(args, FourStrings);
      if err.Some? {
        return Err(err.value);
      }
      var callerId, topic, topicType, callerApi := StringArg(args, 0), StringArg(args, 1), StringArg(args, 2), StringArg(args, 3);
      var response := AddPublisher(callerId, topic, topicType, callerApi);
      return Ok(response);
    }


    /** The state change of `registerPublisher` once the arguments conform. */
    method AddPublisher(callerId: string, topic: string, topicType: string, callerApi: string) returns (r: Response)
      requires Valid()
      modifies this`publications, this`topics, this`nodes
      ensures Valid()
      ensures var dataType := Get(old(topics), topic);
        if dataType.Some? && dataType.value != topicType then
          && r == Response(0, TypeMismatch(topicType, topic, dataType.value), XArray([]))
          && publications == old(publications) && topics == old(topics) && nodes == old(nodes)
        else
          && publications == Put(old(publications), topic, Add(MembersOf(old(publications), topic), callerId))
          && topics == Put(old(topics), topic, topicType)
          && nodes == old(nodes)[callerId := callerApi]
          && r == Response(1, "", XArray(NodeApis(nodes, MembersOf(subscriptions, topic))))
    {
      var dataType := Get(topics, topic);
      if dataType.Some? && dataType.value != topicType {
        return Response(0, TypeMismatch(topicType, topic, dataType.value), XArray([]));
      }
      var publishers := MembersOf(publications, topic);
      PublisherRegistered(services, publications, subscriptions, topics, nodes, topic, topicType, callerId, callerApi);
      publications := Put(publications, topic, Add(publishers, callerId));
      topics := Put(topics, topic, topicType);
      nodes := nodes[callerId := callerApi];
      var subscribers := MembersOf(subscriptions, topic);
      var subscriberApis := NodeApis(nodes, subscribers);
      return Response(1, "", XArray(subscriberApis));
    }

    /** `unregisterPublisher`: answers 1 exactly when the caller was
        publishing; a topic left without publishers is forgotten, while its
        recorded type stays (`topics` is outside the frame). */
    method UnregisterPublisher(args: seq<XmlRpcValue>) returns (r: Result<Response>)
      requires Valid()
      modifies this`publications
      ensures Valid()
      ensures !Conforms(args, ThreeStrings) ==> r.Err? && publications == old(publications)
      ensures Conforms(args, ThreeStrings) ==>
        var callerId, topic := StringArg(args, 0), StringArg(args, 1);
        match Get(old(publications), topic)
        case None => r == Ok(Response(1, "", XInt(0))) && publications == old(publications)
        case Some(publishers) =>
          var left := Without(publishers, callerId);
          && r == Ok(Response(1, "", XInt(if callerId in publishers then 1 else 0)))
          && publications == if left == [] then Remove(old(publications), topic) else Put(old(publications), topic, left)
    {
      var err := CheckArguments(args, ThreeStrings);
      if err.Some? {
        return Err(err.value);
      }
      var callerId, topic := StringArg(args, 0), StringArg(args, 1);
      var publishers := Get(publications, topic);
      if publishers.None? {
        return Ok(Response(1, "", XInt(0)));
      }
      var removed := callerId in publishers.value;
      var left := Without(publishers.value, callerId);
      MemberRemoved(publications, nodes, topic, callerId);
      PublisherDropped(publications, topics, topic, callerId);
      publications := Put(publications, topic, left);
      if left == [] {
        RemoveAfterPut(old(publications), topic, left);
        publications := Remove(publications, topic);
      }
      return Ok(Response(1, "", XInt(if removed then 1 else 0)));
    }

    /** `lookupNode`: the node's API, or code 0 for an unknown node. */
    method LookupNode(args: seq<XmlRpcValue>) returns (r: Result<Response>)
      ensures r.Ok? <==> Conforms(args, TwoStrings)
      ensures r.Ok? ==>
        var nodeName := StringArg(args, 1);
        && (r.value.code == 1 <==> nodeName in nodes)
        && (nodeName in nodes ==> r.value == Response(1, "", XString(nodes[nodeName])))
        && (nodeName !in nodes ==> r.value == Response(0, "node \"" + nodeName + "\" not found", XString("")))
    {
      var err := CheckArguments(args, TwoStrings);
      if err.Some? {
        return Err(err.value);
      }
      var nodeName := StringArg(args, 1);
      if nodeName !in nodes {
        return Ok(Response(0, "node \"" + nodeName + "\" not found", XString("")));
      }
      return Ok(Response(1, "", XString(nodes[nodeName])));
    }

    /** `getPublishedTopics`: `[topic, type]` for every topic with a
        publisher, in registration order; the subgraph is not used. */
    method GetPublishedTopics(args: seq<XmlRpcValue>) returns (r: Result<Response>)
      requires Valid()
      ensures r.Ok? <==> Conforms(args, TwoStrings)
      ensures r.Ok? ==> r.value.code == 1 && r.value.value.XArray?
      ensures r.Ok? ==>
        var entries := r.value.value.items;
        |entries| == |publications.keys|
        && forall i :: 0 <= i < |entries| ==>
          entries[i] == Pair(publications.keys[i], XString(topics.values[publications.keys[i]]))
    {
      var err := CheckArguments(args, TwoStrings);
      if err.Some? {
        return Err(err.value);
      }
      var entries: seq<XmlRpcValue> := [];
      var keys := publications.keys;
      for i := 0 to |keys|
        invariant |entries| == i
        invariant forall k :: 0 <= k < i ==> entries[k] == Pair(keys[k], XString(topics.values[keys[k]]))
      {
        var topic := keys[i];
        var dataType := Get(topics, topic);
        if dataType.Some? {
          entries := entries + [Pair(topic, XString(dataType.value))];
        }
      }
      return Ok(Response(1, "", XArray(entries)));
    }

    /** `getTopicTypes`: `[topic, type]` for every topic ever published, in
        registration order. */
    method GetTopicTypes(args: seq<XmlRpcValue>) returns (r: Result<Response>)
      requires Valid()
      ensures r.Ok? <==> Conforms(args, OneString)
      ensures r.Ok? ==> r.value.code == 1 && r.value.value.XArray?
      ensures r.Ok? ==>
        var entries := r.value.value.items;
        |entries| == |topics.keys|
        && forall i :: 0 <= i < |entries| ==> entries[i] == Pair(topics.keys[i], XString(topics.values[topics.keys[i]]))
    {
      var err := CheckArguments(args, OneString);
      if err.Some? {
        return Err(err.value);
      }
      var t := topics;
      var entries := seq(|t.keys|, i requires 0 <= i < |t.keys| => Pair(t.keys[i], XString(t.values[t.keys[i]])));
      return Ok(Response(1, "", XArray(entries)));
    }

    /** `getSystemState`: publishers, subscribers and service providers of
        every topic and service, each list of node names sorted. */
    method GetSystemState(args: seq<XmlRpcValue>) returns (r: Result<Response>)
      requires Valid()
      ensures r.Ok? <==> Conforms(args, OneString)
      ensures r.Ok? ==> r.value == Response(1, "",
        XArray([XArray(TopicNodes(publications)), XArray(TopicNodes(subscriptions)), XArray(ServiceNodes(services))]))
    {
      var err := CheckArguments(args, OneString);
      if err.Some? {
        return Err(err.value);
      }
      var publishers := TopicNodes(publications);
      var subscribers := TopicNodes(subscriptions);
      var providers := ServiceNodes(services);
      return Ok(Response(1, "", XArray([XArray(publishers), XArray(subscribers), XArray(providers)])));
    }

    /** `getUri`: the server's address, or code 0 before it started. */
    method GetUri(args: seq<XmlRpcValue>) returns (r: Result<Response>)
      ensures r.Ok? <==> Conforms(args, OneString)
      ensures r.Ok? ==> (r.value.code == 1 <==> url.Some?)
      ensures r.Ok? ==> r.value == if url.Some? then Response(1, "", XString(url.value)) else Response(0, "", XString("not running"))
    {
      var err := CheckArguments(args, OneString);
      if err.Some? {
        return Err(err.value);
      }
      if url.None? {
        return Ok(Response(0, "", XString("not running")));
      }
      return Ok(Response(1, "", XString(url.value)));
    }

    /** `lookupService`: the API of the earliest registered provider that is
        still registered, or code 0 when there is none. */
    method LookupService(args: seq<XmlRpcValue>) returns (r: Result<Response>)
      requires Valid()
      ensures r.Ok? <==> Conforms(args, TwoStrings)
      ensures r.Ok? ==>
        var service := StringArg(args, 1);
        && (r.value.code == 1 <==> service in services.values)
        && (service !in services.values ==> r.value == Response(0, "no providers for service \"" + service + "\"", XString("")))
        && (service in services.values ==>
              var providers := services.values[service];
              r.value == Response(1, "", XString(providers.values[providers.keys[0]])))
    {
      var err := CheckArguments(args, TwoStrings);
      if err.Some? {
        return Err(err.value);
      }
      var service := StringArg(args, 1);
      var serviceProviders := Get(services, service);
      if serviceProviders.None? || Size(serviceProviders.value) == 0 {
        return Ok(Response(0, "no providers for service \"" + service + "\"", XString("")));
      }
      var serviceUrl := ValuesInOrder(serviceProviders.value)[0];
      return Ok(Response(1, "", XString(serviceUrl)));
    }

    // ----- Parameter Server API -----

    /** `deleteParam`: removes exactly that key. */
    method DeleteParam(args: seq<XmlRpcValue>) returns (r: Result<Response>)
      requires Valid()
      modifies this`parameters
      ensures Valid()
      ensures !Conforms(args, TwoStrings) ==> r.Err? && parameters == old(parameters)
      ensures Conforms(args, TwoStrings) ==>
        var key := StringArg(args, 1);
        && r == Ok(Response(1, "", XInt(0)))
        && Get(parameters, key).None?
        && (forall k :: k != key ==> Get(parameters, k) == Get(old(parameters), k))
        && parameters == Remove(old(parameters), key)
    {
      var err := CheckArguments(args, TwoStrings);
      if err.Some? {
        return Err(err.value);
      }
      var key := StringArg(args, 1);
      parameters := Remove(parameters, key);
      return Ok(Response(1, "", XInt(0)));
    }

    /** `setParam`: a struct value is stored leaf by leaf under its
        `key/...` paths; any other value under `key` alone. */
    method SetParam(args: seq<XmlRpcValue>) returns (r: Result<Response>)
      requires Valid()
      modifies this`parameters
      ensures Valid()
      ensures !Conforms(args, SetParamArgs) ==> r.Err? && parameters == old(parameters)
      ensures Conforms(args, SetParamArgs) ==>
        && r == Ok(Response(1, "", XInt(0)))
        && parameters == SetAll(old(parameters), KeyValues(StringArg(args, 1), args[2]))
    {
      var err := CheckArguments(args, SetParamArgs);
      if err.Some? {
        return Err(err.value);
      }
      var key, value := StringArg(args, 1), args[2];
      var allKeyValues;
      if IsPlainObject(value) {
        allKeyValues := ObjectToKeyValues(key, value.members);
      } else {
        allKeyValues := [Entry(key, value)];
      }
      parameters := SetEach(parameters, allKeyValues);
      return Ok(Response(1, "", XInt(0)));
    }

    /** `getParam`: code 1 and the value when the key is set, otherwise code
        0 and an empty struct. */
    method GetParam(args: seq<XmlRpcValue>) returns (r: Result<Response>)
      ensures r.Ok? <==> Conforms(args, TwoStrings)
      ensures r.Ok? ==>
        var key := StringArg(args, 1);
        && (r.value.code == 1 <==> key in parameters.values)
        && r.value.value == (if key in parameters.values then parameters.values[key] else XStruct([]))
    {
      var err := CheckArguments(args, TwoStrings);
      if err.Some? {
        return Err(err.value);
      }
      var key := StringArg(args, 1);
      var value := Get(parameters, key);
      var status := if value.Some? then 1 else 0;
      return Ok(Response(status, "", value.GetOr(XStruct([]))));
    }

    /** `searchParam`: answers as `getParam` does, for the exact key. */
    method SearchParam(args: seq<XmlRpcValue>) returns (r: Result<Response>)
      ensures r.Ok? <==> Conforms(args, TwoStrings)
      ensures r.Ok? ==>
        var key := StringArg(args, 1);
        && (r.value.code == 1 <==> key in parameters.values)
        && r.value.value == (if key in parameters.values then parameters.values[key] else XStruct([]))
    {
      var err := CheckArguments(args, TwoStrings);
      if err.Some? {
        return Err(err.value);
      }
      var key := StringArg(args, 1);
      var value := Get(parameters, key);
      var status := if value.Some? then 1 else 0;
      return Ok(Response(status, "", value.GetOr(XStruct([]))));
    }

    /** `subscribeParam`: records the caller's API for the key and answers
        its current value, or an empty struct. */
    method SubscribeParam(args: seq<XmlRpcValue>) returns (r: Result<Response>)
      modifies this`paramSubscriptions
      ensures !Conforms(args, ThreeStrings) ==> r.Err? && paramSubscriptions == old(paramSubscriptions)
      ensures Conforms(args, ThreeStrings) ==>
        var callerId, callerApi, key := StringArg(args, 0), StringArg(args, 1), StringArg(args, 2);
        var before := if key in old(paramSubscriptions) then old(paramSubscriptions)[key] else map[];
        && paramSubscriptions == old(paramSubscriptions)[key := before[callerId := callerApi]]
        && r == Ok(Response(1, "", if key in parameters.values then parameters.values[key] else XStruct([])))
    {
      var err := CheckArguments(args, ThreeStrings);
      if err.Some? {
        return Err(err.value);
      }
      var callerId, callerApi, key := StringArg(args, 0), StringArg(args, 1), StringArg(args, 2);
      if key !in paramSubscriptions {
        paramSubscriptions := paramSubscriptions[key := map[]];
      }
      var subscriptions := paramSubscriptions[key];
      paramSubscriptions := paramSubscriptions[key := subscriptions[callerId := callerApi]];
      var value := Get(parameters, key).GetOr(XStruct([]));
      return Ok(Response(1, "", value));
    }

    /** `unsubscribeParam`: answers 1 exactly when the caller was subscribed
        to the key; an emptied subscription entry is kept. */
    method UnsubscribeParam(args: seq<XmlRpcValue>) returns (r: Result<Response>)
      modifies this`paramSubscriptions
      ensures !Conforms(args, ThreeStrings) ==> r.Err? && paramSubscriptions == old(paramSubscriptions)
      ensures Conforms(args, ThreeStrings) ==>
        var callerId, key := StringArg(args, 0), StringArg(args, 2);
        if key !in old(paramSubscriptions) then
          r == Ok(Response(1, "", XInt(0))) && paramSubscriptions == old(paramSubscriptions)
        else
          var before := old(paramSubscriptions)[key];
          && r == Ok(Response(1, "", XInt(if callerId in before then 1 else 0)))
          && paramSubscriptions == old(paramSubscriptions)[key := before - {callerId}]
    {
      var err := CheckArguments(args, ThreeStrings);
      if err.Some? {
        return Err(err.value);
      }
      var callerId, key := StringArg(args, 0), StringArg(args, 2);
      if key !in paramSubscriptions {
        return Ok(Response(1, "", XInt(0)));
      }
      var subscriptions := paramSubscriptions[key];
      var removed := callerId in subscriptions;
      paramSubscriptions := paramSubscriptions[key := subscriptions - {callerId}];
      return Ok(Response(1, "", XInt(if removed then 1 else 0)));
    }

    /** `hasParam`: whether the exact key is set. */
    method HasParam(args: seq<XmlRpcValue>) returns (r: Result<Response>)
      ensures r.Ok? <==> Conforms(args, TwoStrings)
      ensures r.Ok? ==> r.value == Response(1, "", XBool(StringArg(args, 1) in parameters.values))
    {
      var err := CheckArguments(args, TwoStrings);
      if err.Some? {
        return Err(err.value);
      }
      var key := StringArg(args, 1);
      return Ok(Response(1, "", XBool(key in parameters.values)));
    }

    /** `getParamNames`: every key, sorted (see `SortedNames`). */
    method GetParamNames(args: seq<XmlRpcValue>) returns (r: Result<Response>)
      ensures r.Ok? <==> Conforms(args, OneString)
      ensures r.Ok? ==> r.value == Response(1, "", StringsArray(Sort(parameters.keys)))
    {
      var err := CheckArguments(args, OneString);
      if err.Some? {
        return Err(err.value);
      }
      var keys := Sort(parameters.keys);
      return Ok(Response(1, "", StringsArray(keys)));
    }
  }

  /** The sorted names are in order and are exactly the names given. */
  lemma SortedNames(names: seq<string>)
    ensures var sorted := Sort(names);
      && |sorted| == |names|
      && (forall i, j :: 0 <= i < j < |sorted| ==> LessEq(sorted[i], sorted[j]))
      && (forall n :: n in sorted <==> n in names)
  {
    var sorted := Sort(names);
    assert |sorted| == |multiset(sorted)| == |multiset(names)| == |names|;
    forall n ensures n in sorted <==> n in names {
      assert n in sorted <==> n in multiset(sorted);
      assert n in names <==> n in multiset(names);
    }
  }
}
