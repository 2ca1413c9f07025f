/** The ROS1 message writer and size calculator.

    The source generates, once per schema set, the text of one JavaScript
    function per named type plus one for the root type, and runs it twice: once
    against an offset calculator and once against a writer. Both runs produce
    the same sequence of primitive calls (`uint32(len)`, `string(value)`, ...),
    because both come from the same per-field walk. The model makes that walk a
    function, `WalkType`, whose result is that call sequence; the two classes
    then consume the calls one at a time, as the generated code does. */
module MessageWriter {
  import opened Wrappers
  import opened Bytes
  import opened Strings
  import opened MsgDef

  // ----- JavaScript message values -----

  /** The part of a JavaScript value the writer looks at. Numbers that reach
      integer fields are integers (`Num`); a value meant for a float field
      carries its IEEE 754 bit pattern (`Float`). */
  datatype Value =
    | Undefined
    | Bool(b: bool)
    | Num(n: int)
    | Float(bits: nat)
    | Str(s: string)
    | List(items: seq<Value>)
    | Record(props: seq<Prop>)

  datatype Prop = Prop(key: string, val: Value)

  /** A size measure under which every property and element is smaller than
      the value holding it. */
  function Weight(v: Value): nat
    decreases v
  {
    match v
    case Undefined => 0
    case List(items) => 1 + ItemsWeight(items)
    case Record(props) => 1 + PropsWeight(props)
    case _ => 1
  }

  function ItemsWeight(items: seq<Value>): nat
    decreases items
  {
    if items == [] then 0 else Weight(items[0]) + ItemsWeight(items[1..])
  }

  function PropsWeight(props: seq<Prop>): nat
    decreases props
  {
    if props == [] then 0 else Weight(props[0].val) + PropsWeight(props[1..])
  }

  lemma {:induction false} ItemWeight(items: seq<Value>, i: nat)
    requires i < |items|
    ensures Weight(items[i]) <= ItemsWeight(items)
  {
    if i > 0 {
      ItemWeight(items[1..], i - 1);
    }
  }

  /** `obj[name]` on an object: the value of its property `name`, or undefined. */
  function Lookup(props: seq<Prop>, name: string): (v: Value)
    ensures Weight(v) <= PropsWeight(props)
    ensures v != Undefined ==> exists i :: 0 <= i < |props| && props[i] == Prop(name, v)
    ensures (forall i :: 0 <= i < |props| ==> props[i].key != name) ==> v == Undefined
    ensures forall i :: 0 <= i < |props| && props[i].key == name && (forall j :: 0 <= j < i ==> props[j].key != name) ==>
      v == props[i].val
  {
    if props == [] then Undefined
    else if props[0].key == name then props[0].val
    else
      var v := Lookup(props[1..], name);
      assert v != Undefined ==> exists i :: 0 <= i < |props| - 1 && props[1..][i] == Prop(name, v);
      v
  }

  /** `value[name]`: a TypeError on undefined; undefined on a value without
      that property. */
  function Property(v: Value, name: string): (r: Result<Value>)
    ensures r.Err? <==> v.Undefined?
    ensures r.Ok? ==> r.value == Get(v, name) && Weight(r.value) < Weight(v)
  {
    if v.Undefined? then Err("TypeError: Cannot read properties of undefined (reading '" + name + "')")
    else Ok(Get(v, name))
  }

  /** The property `name` of a value that is not undefined. */
  function Get(v: Value, name: string): Value {
    match v
    case Record(props) => Lookup(props, name)
    case _ => Undefined
  }

  /** `value[i]` on an array value; an index past its end reads undefined. */
  function Element(arr: Value, i: nat): (r: Result<Value>)
    ensures r.Ok? <==> arr.List?
    ensures r.Ok? ==> Weight(r.value) < Weight(arr)
    ensures r.Ok? && i < |arr.items| ==> r.value == arr.items[i]
    ensures r.Ok? && i >= |arr.items| ==> r.value == Undefined
  {
    match arr
    case List(items) =>
      if i < |items| then ItemWeight(items, i); Ok(items[i]) else Ok(Undefined)
    case Undefined => Err("TypeError: Cannot read properties of undefined")
    case _ => Err("element access on a non-array value is not modelled")
  }

  /** `value.length` for the count of a variable-length array. */
  function ArrayLength(arr: Value): (r: Result<nat>)
    ensures r.Ok? <==> arr.List?
    ensures r.Ok? ==> r.value == |arr.items|
  {
    if arr.List? then Ok(|arr.items|)
    else if arr.Undefined? then Result<nat>.Err("TypeError: Cannot read properties of undefined (reading 'length')")
    else Result<nat>.Err("the length of a non-array value is not modelled")
  }

  // ----- the per-field walk -----

  /** One call the generated code makes on the calculator or the writer:
      `argName.prim(arg)`. */
  datatype Call = Call(prim: string, arg: Value)

  /** A compiled schema set. `targets` maps each complex field type written in
      the schemas to the name of the generated function it calls; `functions`
      maps each generated function name to the named type whose body it has. */
  datatype Codec = Codec(
    root: MessageDefinition,
    targets: map<string, string>,
    functions: map<string, MessageDefinition>)

  /** The type whose body the generated code runs for a complex field of type `typ`. */
  function Resolve(c: Codec, typ: string): Result<MessageDefinition> {
    if typ in c.targets && c.targets[typ] in c.functions then Ok(c.functions[c.targets[typ]])
    else Err("no generated function for type '" + typ + "'")
  }

  /** The calls the generated function for `t` makes with `message` bound to `v`. */
  function WalkType(c: Codec, t: MessageDefinition, v: Value): Result<seq<Call>>
    decreases Weight(v), 2, 0
  {
    WalkFields(c, t.definitions, v)
  }

  function WalkFields(c: Codec, fs: seq<Field>, v: Value): Result<seq<Call>>
    decreases Weight(v), 1, |fs|
  {
    if fs == [] then Ok([])
    else
      var head :- WalkField(c, fs[0], v);
      var tail :- WalkFields(c, fs[1..], v);
      Ok(head + tail)
  }

  /** The lines generated for one field: nothing for a constant; for an array,
      a count (written only when the length is not fixed) and a loop over the
      elements; for a complex field, a call of the sub-type's function; else a
      primitive call named after the field's type. */
  function WalkField(c: Codec, f: Field, v: Value): Result<seq<Call>>
    decreases Weight(v), 0, 0
  {
    if f.isConstant then Ok([])
    else if f.isArray then
      match f.arrayLength
      case Some(n) =>
        if n == 0 then Ok([])
        else
          var arr :- Property(v, f.name);
          WalkElements(c, f, arr, 0, n)
      case None =>
        var arr :- Property(v, f.name);
        var len :- ArrayLength(arr);
        var elems :- WalkElements(c, f, arr, 0, len);
        Ok([Call("uint32", Num(len))] + elems)
    else if f.isComplex then
      var sub :- Property(v, f.name);
      var t :- Resolve(c, f.typ);
      WalkType(c, t, sub)
    else
      var x :- Property(v, f.name);
      Ok([Call(f.typ, x)])
  }

  /** The body of the generated `for (var i = from; i < n; i++)` loop. */
  function WalkElements(c: Codec, f: Field, arr: Value, from: nat, n: nat): Result<seq<Call>>
    requires from <= n
    decreases Weight(arr), 4, n - from
  {
    if from == n then Ok([])
    else
      var e :- Element(arr, from);
      var head :- WalkElement(c, f, e);
      var tail :- WalkElements(c, f, arr, from + 1, n);
      Ok(head + tail)
  }

  function WalkElement(c: Codec, f: Field, e: Value): Result<seq<Call>>
    decreases Weight(e), 3, 0
  {
    if f.isComplex then
      var t :- Resolve(c, f.typ);
      WalkType(c, t, e)
    else Ok([Call(f.typ, e)])
  }

  /** The calls made for a whole message. */
  function Calls(c: Codec, message: Value): Result<seq<Call>> {
    WalkType(c, c.root, message)
  }

  // ----- widths and encodings of the primitive calls -----

  /** The byte count of every fixed-width primitive the calculator knows. */
  function FixedWidth(prim: string): (w: Option<nat>)
    ensures w.Some? ==> w.value in {1, 2, 4, 8}
  {
    if prim in {"bool", "int8", "uint8"} then Some(1)
    else if prim in {"int16", "uint16"} then Some(2)
    else if prim in {"int32", "uint32", "float32"} then Some(4)
    else if prim in {"int64", "uint64", "float64", "time", "duration"} then Some(8)
    else None
  }

  function TypeOf(v: Value): string {
    match v
    case Undefined => "undefined"
    case Bool(_) => "boolean"
    case Num(_) => "number"
    case Float(_) => "number"
    case Str(_) => "string"
    case _ => "object"
  }

  /** How far one call advances the calculator. */
  function CallWidth(call: Call): Result<nat> {
    if call.prim == "string" then
      if call.arg.Str? then Ok(4 + Utf8Length(call.arg.s))
      else Err("Expected string but got " + TypeOf(call.arg))
    else match FixedWidth(call.prim)
      case Some(w) => Ok(w)
      case None => Err("offsetCalculator." + call.prim + " is not a function")
  }

  /** The size the calculator reaches over a call sequence, starting from 0. */
  function TotalWidth(calls: seq<Call>): Result<nat> {
    if calls == [] then Ok(0)
    else
      var n :- TotalWidth(calls[..|calls| - 1]);
      var w :- CallWidth(calls[|calls| - 1]);
      Ok(n + w)
  }

  /** The byte size of a message under a compiled schema set. */
  function ByteSize(c: Codec, message: Value): Result<nat> {
    var calls :- Calls(c, message);
    TotalWidth(calls)
  }

  /** What a `DataView.set*` of at most 32 bits stores for a value: its number
      conversion, where undefined becomes NaN and so 0. */
  function NumberArg(v: Value): Result<int> {
    match v
    case Undefined => Ok(0)
    case Bool(b) => Ok(if b then 1 else 0)
    case Num(n) => Ok(n)
    case _ => Err("number conversion of " + TypeOf(v) + " is not modelled")
  }

  /** `BigInt(value)` for the 64-bit integer kinds; undefined throws. */
  function BigIntArg(v: Value): Result<int> {
    match v
    case Bool(b) => Ok(if b then 1 else 0)
    case Num(n) => Ok(n)
    case Undefined => Err("TypeError: Cannot convert undefined to a BigInt")
    case _ => Err("BigInt conversion of " + TypeOf(v) + " is not modelled")
  }

  /** `value ? 1 : 0`. */
  function Truthy(v: Value): Result<bool> {
    match v
    case Undefined => Ok(false)
    case Bool(b) => Ok(b)
    case Num(n) => Ok(n != 0)
    case Str(s) => Ok(s != [])
    case List(_) => Ok(true)
    case Record(_) => Ok(true)
    case Float(_) => Err("truthiness of a float is not modelled")
  }

  /** A string: its UTF-8 byte length as a little-endian uint32, then its bytes. */
  function EncodeString(v: Value): Result<seq<byte>> {
    if v.Str? then Ok(LittleEndian(Utf8Length(v.s), 4) + Utf8Encode(v.s))
    else Err("Expected string but got " + TypeOf(v))
  }

  /** `writeTime`: `sec` then `nsec`, each a little-endian uint32. */
  function EncodeTime(v: Value): Result<seq<byte>> {
    if v.Undefined? then Err("TypeError: Cannot read properties of undefined (reading 'sec')")
    else
      var s :- NumberArg(Get(v, "sec"));
      var ns :- NumberArg(Get(v, "nsec"));
      Ok(LittleEndian(s, 4) + LittleEndian(ns, 4))
  }

  /** The bytes of a fixed-width primitive other than time and duration. */
  function EncodeNumber(prim: string, w: nat, v: Value): Result<seq<byte>> {
    if prim == "bool" then
      var b :- Truthy(v);
      Ok(LittleEndian(if b then 1 else 0, 1))
    else if prim in {"int64", "uint64"} then
      var n :- BigIntArg(v);
      Ok(LittleEndian(n, w))
    else if prim in {"float32", "float64"} then
      if v.Float? then Ok(LittleEndian(v.bits, w)) else Err("float conversion is not modelled")
    else
      var n :- NumberArg(v);
      Ok(LittleEndian(n, w))
  }

  lemma EncodeNumberWidth(prim: string, w: nat, v: Value)
    ensures EncodeNumber(prim, w, v).Ok? ==> |EncodeNumber(prim, w, v).value| == (if prim == "bool" then 1 else w)
  {
  }

  /** The bytes the writer stores for one call. */
  function EncodeCall(call: Call): Result<seq<byte>> {
    if call.prim == "string" then EncodeString(call.arg)
    else if call.prim in {"time", "duration"} then EncodeTime(call.arg)
    else match FixedWidth(call.prim)
      case Some(w) => EncodeNumber(call.prim, w, call.arg)
      case None => Err("writer." + call.prim + " is not a function")
  }

  function EncodeCalls(calls: seq<Call>): Result<seq<byte>> {
    if calls == [] then Ok([])
    else
      var prefix :- EncodeCalls(calls[..|calls| - 1]);
      var bs :- EncodeCall(calls[|calls| - 1]);
      Ok(prefix + bs)
  }

  /** The serialized bytes of a message under a compiled schema set. */
  function Encode(c: Codec, message: Value): Result<seq<byte>> {
    var calls :- Calls(c, message);
    EncodeCalls(calls)
  }

  /** `bs` stored into `d` from index `at` on. */
  function Overlay(d: seq<byte>, at: nat, bs: seq<byte>): (r: seq<byte>)
    requires at + |bs| <= |d|
    ensures |r| == |d|
    ensures r[at..at + |bs|] == bs
    ensures forall k :: 0 <= k < |d| && !(at <= k < at + |bs|) ==> r[k] == d[k]
  {
    d[..at] + bs + d[at + |bs|..]
  }

  /** An overlay inside the window `[lo, lo + len)` keeps everything outside it. */
  lemma OutsideKept(d: seq<byte>, r: seq<byte>, at: nat, bs: seq<byte>, lo: nat, len: nat)
    requires at + |bs| <= |d| && lo <= at && at + |bs| <= lo + len
    requires r == Overlay(d, at, bs)
    ensures |r| == |d| && forall k :: 0 <= k < |d| && !(lo <= k < lo + len) ==> r[k] == d[k]
  {
  }

  lemma OverlayTwice(d: seq<byte>, at: nat, x: seq<byte>, y: seq<byte>)
    requires at + |x| + |y| <= |d|
    ensures Overlay(Overlay(d, at, x), at + |x|, y) == Overlay(d, at, x + y)
  {
  }

  // ----- the two consumers of the call sequence -----

  /** `StandardTypeOffsetCalculator`: a cursor that every call advances. */
  class OffsetCalculator {
    var offset: nat

    constructor ()
      ensures offset == 0
    {
      offset := 0;
    }

    /** `_incrementAndReturn`: the offset before the call, and the cursor moved on by `byteCount`. */
    method IncrementAndReturn(byteCount: nat) returns (start: nat)
      modifies this
      ensures start == old(offset) && offset == old(offset) + byteCount
    {
      start := offset;
      offset := offset + byteCount;
    }

    /** `string`: a non-string throws; otherwise 4 bytes of length plus the UTF-8 bytes. */
    method String(value: Value) returns (r: Result<nat>)
      modifies this
      ensures r.Ok? <==> value.Str?
      ensures r.Ok? ==> r.value == old(offset) && offset == old(offset) + 4 + Utf8Length(value.s)
      ensures r.Err? ==> offset == old(offset)
    {
      if !value.Str? {
        return Err("Expected string but got " + TypeOf(value));
      }
      var start := IncrementAndReturn(4 + Utf8Length(value.s));
      return Ok(start);
    }

    /** One call of the generated size function: `string`, or one of the
        fixed-width methods (`bool`, `int8`, ..., `duration`) by name. */
    method Primitive(call: Call) returns (r: Result<nat>)
      modifies this
      ensures r.Ok? <==> CallWidth(call).Ok?
      ensures r.Ok? ==> r.value == old(offset) && offset == old(offset) + CallWidth(call).value
      ensures r.Err? ==> offset == old(offset)
    {
      if call.prim == "string" {
        r := String(call.arg);
      } else {
        match FixedWidth(call.prim)
        case Some(w) =>
          var start := IncrementAndReturn(w);
          r := Ok(start);
        case None =>
          r := Err("offsetCalculator." + call.prim + " is not a function");
      }
    }

    /** The generated `calculateSize` body: the calls in order, then `offset`. */
    method Run(calls: seq<Call>) returns (r: Result<nat>)
      modifies this
      ensures r.Ok? <==> TotalWidth(calls).Ok?
      ensures r.Ok? ==> r.value == offset == old(offset) + TotalWidth(calls).value
    {
      var i := 0;
      while i < |calls|
        invariant 0 <= i <= |calls|
        invariant offset >= old(offset)
        invariant TotalWidth(calls[..i]) == Ok(offset - old(offset))
      {
        var p := Primitive(calls[i]);
        assert calls[..i + 1][..i] == calls[..i];
        if p.Err? {
          TotalWidthPrefix(calls, i + 1);
          return Err(p.error);
        }
        i := i + 1;
      }
      assert calls[..i] == calls;
      return Ok(offset);
    }
  }

  /** A failing prefix makes the whole sequence fail; a successful whole has a
      successful prefix no larger than it. */
  lemma {:induction false} TotalWidthPrefix(calls: seq<Call>, k: nat)
    requires k <= |calls|
    ensures TotalWidth(calls[..k]).Err? ==> TotalWidth(calls).Err?
    ensures TotalWidth(calls).Ok? ==>
      TotalWidth(calls[..k]).Ok? && TotalWidth(calls[..k]).value <= TotalWidth(calls).value
    decreases |calls| - k
  {
    if k < |calls| {
      var front := calls[..|calls| - 1];
      assert calls[..k] == front[..k];
      TotalWidthPrefix(front, k);
    } else {
      assert calls[..k] == calls;
    }
  }

  lemma {:induction false} EncodeCallsPrefix(calls: seq<Call>, k: nat)
    requires k <= |calls|
    ensures EncodeCalls(calls[..k]).Err? ==> EncodeCalls(calls).Err?
    ensures EncodeCalls(calls).Ok? ==>
      EncodeCalls(calls[..k]).Ok? && |EncodeCalls(calls[..k]).value| <= |EncodeCalls(calls).value|
    decreases |calls| - k
  {
    if k < |calls| {
      var front := calls[..|calls| - 1];
      assert calls[..k] == front[..k];
      EncodeCallsPrefix(front, k);
    } else {
      assert calls[..k] == calls;
    }
  }

  /** `StandardTypeWriter` over a `Uint8Array` that views `byteLength` bytes of
      `data` from `byteOffset` on; every offset it uses is relative to that view. */
  class StandardTypeWriter {
    const data: array<byte>
    const byteOffset: nat
    const byteLength: nat
    const offsetCalculator: OffsetCalculator

    predicate Valid()
      reads this
    {
      byteOffset + byteLength <= data.Length
    }

    constructor (data: array<byte>, byteOffset: nat, byteLength: nat)
      requires byteOffset + byteLength <= data.Length
      ensures Valid()
      ensures this.data == data && this.byteOffset == byteOffset && this.byteLength == byteLength
      ensures fresh(offsetCalculator) && offsetCalculator.offset == 0
    {
      this.data := data;
      this.byteOffset := byteOffset;
      this.byteLength := byteLength;
      offsetCalculator := new OffsetCalculator();
    }

    /** A `DataView.set*` or `encodeInto` that stores `bs` at view offset `at`;
        a RangeError, storing nothing, when the view ends first. */
    method Store(at: nat, bs: seq<byte>) returns (r: Result<()>)
      requires Valid()
      modifies data
      ensures r.Ok? <==> at + |bs| <= byteLength
      ensures r.Ok? ==> data[..] == Overlay(old(data[..]), byteOffset + at, bs)
      ensures r.Err? ==> data[..] == old(data[..])
    {
      if at + |bs| > byteLength {
        return Err("RangeError: Offset is outside the bounds of the DataView");
      }
      var j := 0;
      while j < |bs|
        invariant 0 <= j <= |bs|
        invariant data[..] == Overlay(old(data[..]), byteOffset + at, bs[..j])
      {
        data[byteOffset + at + j] := bs[j];
        assert bs[..j + 1] == bs[..j] + [bs[j]];
        j := j + 1;
      }
      assert bs[..j] == bs;
      return Ok(());
    }

    /** `string`: the length prefix at the string's offset, then the UTF-8
        bytes at offset + 4; throws when the view cannot hold them all. */
    method String(value: Value) returns (r: Result<()>)
      requires Valid()
      modifies data, offsetCalculator
      ensures r.Ok? <==>
        (EncodeString(value).Ok? && old(offsetCalculator.offset) + |EncodeString(value).value| <= byteLength)
      ensures r.Ok? ==> offsetCalculator.offset == old(offsetCalculator.offset) + |EncodeString(value).value|
      ensures r.Ok? ==> data[..] == Overlay(old(data[..]), byteOffset + old(offsetCalculator.offset), EncodeString(value).value)
      ensures forall k :: 0 <= k < data.Length && !(byteOffset <= k < byteOffset + byteLength) ==> data[k] == old(data[k])
    {
      var at := offsetCalculator.String(value);
      if at.Err? {
        return Err(at.error);
      }
      var stringOffset := at.value;
      var stringLength := offsetCalculator.offset - stringOffset - 4;
      r := WriteString(value.s, stringOffset, stringLength);
    }

    /** The stores of `string` once the calculator has placed it: the length
        at `stringOffset`, the UTF-8 bytes after it. */
    method WriteString(s: string, stringOffset: nat, stringLength: nat) returns (r: Result<()>)
      requires Valid() && stringLength == Utf8Length(s)
      modifies data
      ensures r.Ok? <==> stringOffset + 4 + stringLength <= byteLength
      ensures r.Ok? ==> data[..] == Overlay(old(data[..]), byteOffset + stringOffset, EncodeString(Str(s)).value)
      ensures forall k :: 0 <= k < data.Length && !(byteOffset <= k < byteOffset + byteLength) ==> data[k] == old(data[k])
    {
      ghost var prefix, letters := LittleEndian(stringLength, 4), Utf8Encode(s);
      assert |prefix| == 4 && |letters| == stringLength;
      assert EncodeString(Str(s)).value == prefix + letters;
      ghost var d0 := data[..];
      var s1 := Store(stringOffset, LittleEndian(stringLength, 4));
      if s1.Err? {
        return Err(s1.error);
      }
      ghost var d1 := data[..];
      OutsideKept(d0, d1, byteOffset + stringOffset, prefix, byteOffset, byteLength);
      var s2 := Store(stringOffset + 4, Utf8Encode(s));
      if s2.Err? {
        assert stringOffset + 4 + stringLength > byteLength;
        return Err("Not enough space to encode string into subarray");
      }
      OutsideKept(d1, data[..], byteOffset + stringOffset + 4, letters, byteOffset, byteLength);
      OverlayTwice(d0, byteOffset + stringOffset, prefix, letters);
      return Ok(());
    }

    /** `time` and `duration`: eight bytes taken from the calculator, then `writeTime`. */
    method Time(value: Value) returns (r: Result<()>)
      requires Valid()
      modifies data, offsetCalculator
      ensures r.Ok? <==> EncodeTime(value).Ok? && old(offsetCalculator.offset) + 8 <= byteLength
      ensures r.Ok? ==> offsetCalculator.offset == old(offsetCalculator.offset) + 8
      ensures r.Ok? ==> data[..] == Overlay(old(data[..]), byteOffset + old(offsetCalculator.offset), EncodeTime(value).value)
      ensures forall k :: 0 <= k < data.Length && !(byteOffset <= k < byteOffset + byteLength) ==> data[k] == old(data[k])
    {
      var offset := offsetCalculator.IncrementAndReturn(8);
      r := WriteTime(value, offset);
    }

    /** `writeTime`: `time.sec` at `offset` and `time.nsec` at `offset + 4`. */
    method WriteTime(time: Value, offset: nat) returns (r: Result<()>)
      requires Valid()
      modifies data
      ensures r.Ok? <==> EncodeTime(time).Ok? && offset + 8 <= byteLength
      ensures r.Ok? ==> data[..] == Overlay(old(data[..]), byteOffset + offset, EncodeTime(time).value)
      ensures forall k :: 0 <= k < data.Length && !(byteOffset <= k < byteOffset + byteLength) ==> data[k] == old(data[k])
    {
      if time.Undefined? {
        return Err("TypeError: Cannot read properties of undefined (reading 'sec')");
      }
      var s :- NumberArg(Get(time, "sec"));
      ghost var d0 := data[..];
      var r1 := StoreWord(offset, s);
      if r1.Err? {
        return Err(r1.error);
      }
      ghost var d1 := data[..];
      var ns :- NumberArg(Get(time, "nsec"));
      var r2 := StoreWord(offset + 4, ns);
      if r2.Err? {
        return Err(r2.error);
      }
      OverlayTwice(d0, byteOffset + offset, LittleEndian(s, 4), LittleEndian(ns, 4));
      assert EncodeTime(time) == Ok(LittleEndian(s, 4) + LittleEndian(ns, 4));
      return Ok(());
    }

    /** `setUint32(offset, n, true)`: four little-endian bytes. */
    method StoreWord(offset: nat, n: int) returns (r: Result<()>)
      requires Valid()
      modifies data
      ensures r.Ok? <==> offset + 4 <= byteLength
      ensures r.Ok? ==> data[..] == Overlay(old(data[..]), byteOffset + offset, LittleEndian(n, 4))
      ensures forall k :: 0 <= k < data.Length && !(byteOffset <= k < byteOffset + byteLength) ==> data[k] == old(data[k])
    {
      ghost var d0 := data[..];
      r := Store(offset, LittleEndian(n, 4));
      if r.Ok? {
        OutsideKept(d0, data[..], byteOffset + offset, LittleEndian(n, 4), byteOffset, byteLength);
      }
    }

    /** One call of the generated write function, dispatched on the primitive's name. */
    method Primitive(call: Call) returns (r: Result<()>)
      requires Valid()
      modifies data, offsetCalculator
      ensures r.Ok? <==>
        (EncodeCall(call).Ok? && old(offsetCalculator.offset) + |EncodeCall(call).value| <= byteLength)
      ensures r.Ok? ==> offsetCalculator.offset == old(offsetCalculator.offset) + |EncodeCall(call).value|
      ensures r.Ok? ==> data[..] == Overlay(old(data[..]), byteOffset + old(offsetCalculator.offset), EncodeCall(call).value)
      ensures forall k :: 0 <= k < data.Length && !(byteOffset <= k < byteOffset + byteLength) ==> data[k] == old(data[k])
    {
      if call.prim == "string" {
        r := String(call.arg);
      } else if call.prim in {"time", "duration"} {
        r := Time(call.arg);
      } else {
        match FixedWidth(call.prim)
        case Some(w) =>
          assert EncodeCall(call) == EncodeNumber(call.prim, w, call.arg);
          r := Number(call.prim, w, call.arg);
        case None =>
          r := Err("writer." + call.prim + " is not a function");
      }
    }

    /** A fixed-width primitive: its bytes at the offset the calculator hands out. */
    method Number(prim: string, w: nat, value: Value) returns (r: Result<()>)
      requires Valid() && FixedWidth(prim) == Some(w)
      modifies data, offsetCalculator
      ensures r.Ok? <==>
        (EncodeNumber(prim, w, value).Ok? && old(offsetCalculator.offset) + |EncodeNumber(prim, w, value).value| <= byteLength)
      ensures r.Ok? ==> offsetCalculator.offset == old(offsetCalculator.offset) + |EncodeNumber(prim, w, value).value|
      ensures r.Ok? ==> data[..] == Overlay(old(data[..]), byteOffset + old(offsetCalculator.offset), EncodeNumber(prim, w, value).value)
      ensures forall k :: 0 <= k < data.Length && !(byteOffset <= k < byteOffset + byteLength) ==> data[k] == old(data[k])
    {
      EncodeNumberWidth(prim, w, value);
      var bs :- EncodeNumber(prim, w, value);
      var offset := offsetCalculator.IncrementAndReturn(w);
      r := Store(offset, bs);
    }

    /** The generated `write` body: the calls in order. */
    method Run(calls: seq<Call>) returns (r: Result<()>)
      requires Valid() && offsetCalculator.offset <= byteLength
      modifies data, offsetCalculator
      ensures r.Ok? <==>
        (EncodeCalls(calls).Ok? && old(offsetCalculator.offset) + |EncodeCalls(calls).value| <= byteLength)
      ensures r.Ok? ==> offsetCalculator.offset == old(offsetCalculator.offset) + |EncodeCalls(calls).value|
      ensures r.Ok? ==> data[..] == Overlay(old(data[..]), byteOffset + old(offsetCalculator.offset), EncodeCalls(calls).value)
      ensures forall k :: 0 <= k < data.Length && !(byteOffset <= k < byteOffset + byteLength) ==> data[k] == old(data[k])
    {
      var start := offsetCalculator.offset;
      var i := 0;
      while i < |calls|
        invariant 0 <= i <= |calls|
        invariant EncodeCalls(calls[..i]).Ok?
        invariant offsetCalculator.offset == start + |EncodeCalls(calls[..i]).value| <= byteLength
        invariant data[..] == Overlay(old(data[..]), byteOffset + start, EncodeCalls(calls[..i]).value)
        invariant forall k :: 0 <= k < data.Length && !(byteOffset <= k < byteOffset + byteLength) ==> data[k] == old(data[k])
      {
        ghost var before := data[..];
        ghost var prefix := EncodeCalls(calls[..i]).value;
        var p := Primitive(calls[i]);
        assert calls[..i + 1][..i] == calls[..i];
        EncodeCallsPrefix(calls, i + 1);
        if p.Err? {
          return Err(p.error);
        }
        OverlayTwice(old(data[..]), byteOffset + start, prefix, EncodeCall(calls[i]).value);
        i := i + 1;
      }
      assert calls[..i] == calls;
      return Ok(());
    }
  }

  // ----- the MessageWriter class's two entry points -----

  /** `calculateByteSize`: a fresh calculator run over the message's calls. */
  method CalculateByteSize(c: Codec, message: Value) returns (r: Result<nat>)
    ensures r.Ok? <==> ByteSize(c, message).Ok?
    ensures r.Ok? ==> r.value == ByteSize(c, message).value
  {
    var calls :- Calls(c, message);
    var calculator := new OffsetCalculator();
    r := calculator.Run(calls);
  }

  /** `writeMessage(message, output)`: the message's bytes at the start of the
      output view; nothing outside the view changes. */
  method WriteMessage(c: Codec, message: Value, output: array<byte>, byteOffset: nat, byteLength: nat)
    returns (r: Result<()>)
    requires byteOffset + byteLength <= output.Length
    modifies output
    ensures r.Ok? <==> Encode(c, message).Ok? && |Encode(c, message).value| <= byteLength
    ensures r.Ok? ==> output[..] == Overlay(old(output[..]), byteOffset, Encode(c, message).value)
    ensures forall k :: 0 <= k < output.Length && !(byteOffset <= k < byteOffset + byteLength) ==> output[k] == old(output[k])
  {
    var calls :- Calls(c, message);
    var writer := new StandardTypeWriter(output, byteOffset, byteLength);
    r := writer.Run(calls);
  }

  /** `writeMessage(message)` without an output: a buffer of exactly
      `calculateByteSize(message)` bytes holding the message's encoding. */
  method WriteMessageAlloc(c: Codec, message: Value) returns (r: Result<array<byte>>)
    ensures r.Ok? <==> Encode(c, message).Ok?
    ensures r.Ok? ==> fresh(r.value) && r.value[..] == Encode(c, message).value
  {
    var size := CalculateByteSize(c, message);
    if size.Err? {
      if Encode(c, message).Ok? {
        SizeAgreement(c, message);
      }
      return Err(size.error);
    }
    var output := new byte[size.value](_ => 0);
    ghost var zeros := output[..];
    var w := WriteMessage(c, message, output, 0, size.value);
    if w.Err? {
      if Encode(c, message).Ok? {
        SizeAgreement(c, message);
      }
      return Err(w.error);
    }
    SizeAgreement(c, message);
    assert Overlay(zeros, 0, Encode(c, message).value) == Encode(c, message).value;
    return Ok(output);
  }

  // ----- the calculator and the writer agree -----

  lemma CallWidthAgreesWithEncoding(call: Call)
    requires EncodeCall(call).Ok?
    ensures CallWidth(call) == Ok(|EncodeCall(call).value|)
  {
  }

  lemma {:induction false} TotalWidthAgreesWithEncoding(calls: seq<Call>)
    requires EncodeCalls(calls).Ok?
    ensures TotalWidth(calls) == Ok(|EncodeCalls(calls).value|)
  {
    if calls != [] {
      var init, last := calls[..|calls| - 1], calls[|calls| - 1];
      assert EncodeCalls(init).Ok? && EncodeCall(last).Ok?;
      var bs := EncodeCalls(init).value + EncodeCall(last).value;
      assert EncodeCalls(calls).value == bs;
      TotalWidthAgreesWithEncoding(init);
      CallWidthAgreesWithEncoding(last);
      assert |bs| == |EncodeCalls(init).value| + |EncodeCall(last).value|;
    }
  }

  /** Whatever message the writer can encode, the calculator sizes at exactly
      the number of bytes written, so every write lands inside
      `[0, calculateByteSize(message))`. */
  lemma SizeAgreement(c: Codec, message: Value)
    requires Encode(c, message).Ok?
    ensures ByteSize(c, message) == Ok(|Encode(c, message).value|)
  {
    TotalWidthAgreesWithEncoding(Calls(c, message).value);
  }

  // ----- round trips of the primitive encodings -----

  /** A string is written as its little-endian UTF-8 length and then its
      UTF-8 bytes, so both read back. */
  lemma StringRoundTrip(s: string)
    requires Utf8Length(s) < Pow256(4)
    ensures EncodeCall(Call("string", Str(s))).Ok?
    ensures var bs := EncodeCall(Call("string", Str(s))).value;
      && |bs| == 4 + Utf8Length(s)
      && FromLittleEndian(bs[..4]) == Utf8Length(s)
      && Utf8Decode(bs[4..]) == Some(s)
  {
    var prefix := LittleEndian(Utf8Length(s), 4);
    var body := Utf8Encode(s);
    assert EncodeCall(Call("string", Str(s))) == Ok(prefix + body);
    assert (prefix + body)[..4] == prefix;
    assert (prefix + body)[4..] == body;
    SmallRoundTrip(Utf8Length(s), 4);
    Utf8RoundTrip(s);
  }

  lemma SmallRoundTrip(n: nat, w: nat)
    requires n < Pow256(w)
    ensures FromLittleEndian(LittleEndian(n, w)) == n
  {
    LittleEndianRoundTrip(n, w);
  }

  /** A time or duration is `sec` in the first four bytes and `nsec` in the next four. */
  lemma TimeRoundTrip(prim: string, sec: nat, nsec: nat)
    requires prim in {"time", "duration"}
    requires sec < Pow256(4) && nsec < Pow256(4)
    ensures var v := Record([Prop("sec", Num(sec)), Prop("nsec", Num(nsec))]);
      && EncodeCall(Call(prim, v)).Ok?
      && |EncodeCall(Call(prim, v)).value| == 8
      && FromLittleEndian(EncodeCall(Call(prim, v)).value[..4]) == sec
      && FromLittleEndian(EncodeCall(Call(prim, v)).value[4..]) == nsec
  {
    var v := Record([Prop("sec", Num(sec)), Prop("nsec", Num(nsec))]);
    var x, y := LittleEndian(sec, 4), LittleEndian(nsec, 4);
    TimeFields(sec, nsec);
    assert prim != "string";
    assert EncodeCall(Call(prim, v)) == Ok(x + y);
    assert (x + y)[..4] == x && (x + y)[4..] == y;
    SmallRoundTrip(sec, 4);
    SmallRoundTrip(nsec, 4);
  }

  lemma TimeFields(sec: nat, nsec: nat)
    ensures EncodeTime(Record([Prop("sec", Num(sec)), Prop("nsec", Num(nsec))]))
      == Ok(LittleEndian(sec, 4) + LittleEndian(nsec, 4))
  {
    var v := Record([Prop("sec", Num(sec)), Prop("nsec", Num(nsec))]);
    assert "sec" != "nsec" by { assert |"sec"| == 3 && |"nsec"| == 4; }
    assert Get(v, "sec") == Num(sec);
    assert v.props[1..] == [Prop("nsec", Num(nsec))];
    assert Lookup(v.props[1..], "nsec") == Num(nsec);
    assert Get(v, "nsec") == Num(nsec);
  }

  /** A bool is the single byte 1 for true and 0 for false. */
  lemma BoolByte(b: bool)
    ensures EncodeCall(Call("bool", Bool(b))) == Ok(if b then [1 as byte] else [0 as byte])
  {
    assert "bool" != "string" && "bool" !in {"time", "duration"} by {
      assert |"bool"| == 4 && |"string"| == 6 && "bool"[0] != "time"[0] && "bool"[0] != "duration"[0];
    }
    assert FixedWidth("bool") == Some(1);
    assert LittleEndian(if b then 1 else 0, 1) == [(if b then 1 else 0) as byte];
  }

  /** An integer of a fixed-width kind reads back modulo 256^width, which is
      the two's complement for the signed kinds. */
  lemma IntegerRoundTrip(prim: string, n: int)
    requires prim in {"int8", "uint8", "int16", "uint16", "int32", "uint32", "int64", "uint64"}
    ensures EncodeCall(Call(prim, Num(n))).Ok?
    ensures |EncodeCall(Call(prim, Num(n))).value| == FixedWidth(prim).value
    ensures FromLittleEndian(EncodeCall(Call(prim, Num(n))).value) == n % Pow256(FixedWidth(prim).value)
  {
    var w := FixedWidth(prim).value;
    assert prim != "string" && prim !in {"time", "duration"} && prim != "bool" && prim !in {"float32", "float64"};
    assert EncodeCall(Call(prim, Num(n))) == EncodeNumber(prim, w, Num(n));
    assert EncodeNumber(prim, w, Num(n)) == Ok(LittleEndian(n, w));
    LittleEndianRoundTrip(n, w);
  }

  // ----- properties of the walk -----

  /** The fields the generated code emits lines for. */
  function NonConstant(fs: seq<Field>): (r: seq<Field>)
    ensures forall i :: 0 <= i < |r| ==> !r[i].isConstant
    ensures |r| <= |fs|
  {
    if fs == [] then []
    else if fs[0].isConstant then NonConstant(fs[1..])
    else [fs[0]] + NonConstant(fs[1..])
  }

  /** Constant fields contribute no calls, so they add no bytes and are never written. */
  lemma {:induction false} ConstantsSkipped(c: Codec, fs: seq<Field>, v: Value)
    ensures WalkFields(c, fs, v) == WalkFields(c, NonConstant(fs), v)
  {
    if fs != [] {
      ConstantsSkipped(c, fs[1..], v);
      if fs[0].isConstant {
        var rest := WalkFields(c, fs[1..], v);
        if rest.Ok? {
          assert [] + rest.value == rest.value;
        }
      } else {
        assert ([fs[0]] + NonConstant(fs[1..]))[1..] == NonConstant(fs[1..]);
      }
    }
  }

  /** `value[i]`, undefined past the end. */
  function ElementOr(items: seq<Value>, i: int): Value {
    if 0 <= i < |items| then items[i] else Undefined
  }

  /** A loop over primitive elements makes one call per index, in order. */
  lemma {:induction false} PrimitiveElements(c: Codec, f: Field, items: seq<Value>, from: nat, n: nat)
    requires !f.isComplex && from <= n
    ensures WalkElements(c, f, List(items), from, n)
      == Ok(seq(n - from, k => Call(f.typ, ElementOr(items, from + k))))
    decreases n - from
  {
    if from < n {
      PrimitiveElements(c, f, items, from + 1, n);
      var e := ElementOr(items, from);
      var rest := seq(n - from - 1, k => Call(f.typ, ElementOr(items, from + 1 + k)));
      assert Element(List(items), from) == Ok(e);
      assert WalkElement(c, f, e) == Ok([Call(f.typ, e)]);
      assert WalkElements(c, f, List(items), from, n) == Ok([Call(f.typ, e)] + rest);
      assert seq(n - from, k => Call(f.typ, ElementOr(items, from + k))) == [Call(f.typ, e)] + rest;
    } else {
      assert seq(n - from, k => Call(f.typ, ElementOr(items, from + k))) == [];
    }
  }

  /** A variable-length array starts with its element count as a `uint32`,
      followed by one call per element. */
  lemma DynamicArrayCount(c: Codec, f: Field, v: Value, items: seq<Value>)
    requires !f.isConstant && f.isArray && f.arrayLength.None?
    requires Property(v, f.name) == Ok(List(items))
    ensures WalkField(c, f, v).Ok? ==>
      |WalkField(c, f, v).value| >= 1 && WalkField(c, f, v).value[0] == Call("uint32", Num(|items|))
    ensures !f.isComplex ==>
      WalkField(c, f, v) == Ok([Call("uint32", Num(|items|))] + seq(|items|, k => Call(f.typ, ElementOr(items, k))))
  {
    if !f.isComplex {
      PrimitiveElements(c, f, items, 0, |items|);
      assert seq(|items| - 0, k => Call(f.typ, ElementOr(items, 0 + k)))
        == seq(|items|, k => Call(f.typ, ElementOr(items, k)));
    }
  }

  /** The calls of several walks in order, or the first walk's error. */
  function ConcatWalks(walks: seq<Result<seq<Call>>>): Result<seq<Call>> {
    if walks == [] then Ok([])
    else
      var head :- walks[0];
      var tail :- ConcatWalks(walks[1..]);
      Ok(head + tail)
  }

  /** The element loop is the element walks one after the other. */
  lemma {:induction false} ElementsConcat(c: Codec, f: Field, items: seq<Value>, from: nat, n: nat)
    requires from <= n
    ensures WalkElements(c, f, List(items), from, n)
      == ConcatWalks(seq(n - from, k => WalkElement(c, f, ElementOr(items, from + k))))
    decreases n - from
  {
    var walks := seq(n - from, k => WalkElement(c, f, ElementOr(items, from + k)));
    if from < n {
      ElementsConcat(c, f, items, from + 1, n);
      assert Element(List(items), from) == Ok(ElementOr(items, from));
      assert walks[1..] == seq(n - from - 1, k => WalkElement(c, f, ElementOr(items, from + 1 + k)));
    } else {
      assert walks == [];
    }
  }

  /** A fixed-length array writes no count: its calls are those of exactly
      `arrayLength` element walks, with undefined past the end of a shorter
      value, and for primitive elements one call per index. */
  lemma FixedArrayNoCount(c: Codec, f: Field, v: Value, n: nat, items: seq<Value>)
    requires !f.isConstant && f.isArray && f.arrayLength == Some(n)
    requires Property(v, f.name) == Ok(List(items))
    ensures WalkField(c, f, v) == ConcatWalks(seq(n, k => WalkElement(c, f, ElementOr(items, k))))
    ensures !f.isComplex ==> WalkField(c, f, v) == Ok(seq(n, k => Call(f.typ, ElementOr(items, k))))
  {
    ElementsConcat(c, f, items, 0, n);
    assert seq(n - 0, k => WalkElement(c, f, ElementOr(items, 0 + k))) == seq(n, k => WalkElement(c, f, ElementOr(items, k)));
    if n == 0 {
      assert seq(n, k => WalkElement(c, f, ElementOr(items, k))) == [];
    }
    if !f.isComplex {
      PrimitiveElements(c, f, items, 0, n);
      assert seq(n - 0, k => Call(f.typ, ElementOr(items, 0 + k))) == seq(n, k => Call(f.typ, ElementOr(items, k)));
    }
  }

  /** An ASCII string encodes to one byte per character. */
  lemma {:induction false} AsciiEncoding(s: string)
    requires forall i :: 0 <= i < |s| ==> s[i] as int < 0x80
    ensures Utf8Length(s) == |s|
    ensures Utf8Encode(s) == seq(|s|, i requires 0 <= i < |s| => s[i] as int as byte)
  {
    if s != [] {
      AsciiEncoding(s[1..]);
      assert Utf8Encode(s) == [s[0] as int as byte] + Utf8Encode(s[1..]);
    }
  }

  /** The calls the walk makes for `{name: "hello"}` under `string name`. */
  lemma HelloCalls(c: Codec, m: Value)
    requires c == Codec(MessageDefinition(None, [Field("name", "string", false, false, None, false)]), map[], map[])
    requires m == Record([Prop("name", Str("hello"))])
    ensures Calls(c, m) == Ok([Call("string", Str("hello"))])
  {
    var f := Field("name", "string", false, false, None, false);
    assert Property(m, "name") == Ok(Str("hello"));
    assert WalkField(c, f, m) == Ok([Call("string", Str("hello"))]);
    assert WalkFields(c, [f][1..], m) == Ok([]);
    assert [Call("string", Str("hello"))] + [] == [Call("string", Str("hello"))];
    assert WalkFields(c, [f], m) == Ok([Call("string", Str("hello"))]);
  }

  /** The bytes and the width of the one call `writer.string("hello")`. */
  lemma HelloCall(call: Call)
    requires call == Call("string", Str("hello"))
    ensures EncodeCall(call) == Ok([5, 0, 0, 0, 104, 101, 108, 108, 111])
    ensures CallWidth(call) == Ok(9)
  {
    HelloLetters();
    LengthFive();
    var prefix: seq<byte>, letters: seq<byte> := [5, 0, 0, 0], [104, 101, 108, 108, 111];
    assert EncodeString(Str("hello")) == Ok(prefix + letters);
    assert prefix + letters == [5, 0, 0, 0, 104, 101, 108, 108, 111];
  }

  lemma HelloLetters()
    ensures Utf8Length("hello") == 5
    ensures Utf8Encode("hello") == [104, 101, 108, 108, 111]
  {
    AsciiEncoding("hello");
  }

  lemma LengthFive()
    ensures LittleEndian(5, 4) == [5, 0, 0, 0]
  {
  }

  /** The schema `string name` with the message `{name: "hello"}`: nine bytes,
      a length of 5 and then the five letters. */
  lemma HelloExample()
    ensures var c := Codec(MessageDefinition(None, [Field("name", "string", false, false, None, false)]), map[], map[]);
      var m := Record([Prop("name", Str("hello"))]);
      && ByteSize(c, m) == Ok(9)
      && Encode(c, m) == Ok([5, 0, 0, 0, 104, 101, 108, 108, 111])
  {
    var c := Codec(MessageDefinition(None, [Field("name", "string", false, false, None, false)]), map[], map[]);
    var m := Record([Prop("name", Str("hello"))]);
    var call := Call("string", Str("hello"));
    HelloCalls(c, m);
    HelloCall(call);
    assert [call][..0] == [];
    assert TotalWidth([call]) == Ok(9);
    var bs: seq<byte> := [5, 0, 0, 0, 104, 101, 108, 108, 111];
    assert [] + bs == bs;
    assert EncodeCalls([call]) == Ok(bs);
  }

  // ----- compiling a schema set -----

  /** Whether a search for `name` picks `t`: an empty search picks unnamed
      types; a name with a `/` must end the type's name, any other name must
      end it after a `/`. */
  predicate NameMatches(t: MessageDefinition, name: string) {
    var typeName := NameOrEmpty(t);
    if name == [] then typeName == []
    else EndsWith(typeName, if '/' in name then name else "/" + name)
  }

  /** The types a search for `name` picks, in order. */
  function Matches(types: seq<MessageDefinition>, name: string): (r: seq<MessageDefinition>)
    ensures |r| <= |types|
    ensures forall t :: t in r <==> t in types && NameMatches(t, name)
  {
    if types == [] then []
    else
      var last := types[|types| - 1];
      assert types == types[..|types| - 1] + [last];
      var front := Matches(types[..|types| - 1], name);
      if NameMatches(last, name) then front + [last] else front
  }

  lemma MatchesLast(types: seq<MessageDefinition>, i: nat, name: string)
    requires i < |types|
    ensures Matches(types[..i + 1], name)
      == Matches(types[..i], name) + (if NameMatches(types[i], name) then [types[i]] else [])
  {
    assert types[..i + 1][..i] == types[..i];
  }

  /** A non-empty search never picks a type without a name. */
  lemma MatchIsNamed(t: MessageDefinition, name: string)
    requires name != [] && NameMatches(t, name)
    ensures t.name.Some? && t.name.value != []
  {
  }

  /** `findTypeByName`: the single type the search picks, renamed to the name
      it was found under; an error unless exactly one type is picked. */
  method FindTypeByName(types: seq<MessageDefinition>, name: string) returns (r: Result<MessageDefinition>)
    ensures r.Ok? <==> |Matches(types, name)| == 1
    ensures r.Ok? ==> r.value == MessageDefinition(Some(NameOrEmpty(Matches(types, name)[0])), Matches(types, name)[0].definitions)
    ensures r.Err? ==> r.error == "Expected 1 top level type definition for '" + name + "' but found " + Decimal(|Matches(types, name)|) + "."
  {
    var foundName := "";
    var matches := [];
    for i := 0 to |types|
      invariant matches == Matches(types[..i], name)
      invariant foundName == (if name == [] || matches == [] then "" else NameOrEmpty(matches[|matches| - 1]))
    {
      var typeName := NameOrEmpty(types[i]);
      var keep: bool;
      if |name| == 0 {
        keep := |typeName| == 0;
      } else {
        var nameEnd := if '/' in name then name else "/" + name;
        if EndsWith(typeName, nameEnd) {
          foundName := typeName;
          keep := true;
        } else {
          keep := false;
        }
      }
      assert keep == NameMatches(types[i], name);
      MatchesLast(types, i, name);
      if keep {
        matches := matches + [types[i]];
      }
    }
    assert types[..|types|] == types;
    if |matches| != 1 {
      return Err("Expected 1 top level type definition for '" + name + "' but found " + Decimal(|matches|) + ".");
    }
    assert matches[0] in matches;
    return Ok(MessageDefinition(Some(foundName), matches[0].definitions));
  }

  function UnnamedTypes(types: seq<MessageDefinition>): (r: seq<MessageDefinition>)
    ensures forall t :: t in r <==> t in types && t.name.None?
  {
    if types == [] then []
    else
      assert types == [types[0]] + types[1..];
      (if types[0].name.None? then [types[0]] else []) + UnnamedTypes(types[1..])
  }

  function NamedTypes(types: seq<MessageDefinition>): (r: seq<MessageDefinition>)
    ensures forall t :: t in r <==> t in types && t.name.Some?
  {
    if types == [] then []
    else
      assert types == [types[0]] + types[1..];
      (if types[0].name.Some? then [types[0]] else []) + NamedTypes(types[1..])
  }

  /** The root type: the unnamed type if there is one, else the first type. */
  function RootType(types: seq<MessageDefinition>): (t: MessageDefinition)
    requires types != []
    ensures t in types
    ensures UnnamedTypes(types) != [] ==> t.name.None?
    ensures UnnamedTypes(types) == [] ==> t == types[0]
  {
    var unnamed := UnnamedTypes(types);
    if |unnamed| > 0 then assert unnamed[0] in unnamed; unnamed[0] else types[0]
  }

  /** `name.replace(/\//g, "_")`, the generated function's identifier. */
  function FriendlyName(name: string): (r: string)
    ensures |r| == |name| && '/' !in r
    ensures forall i :: 0 <= i < |name| ==> r[i] == (if name[i] == '/' then '_' else name[i])
  {
    if name == [] then [] else [if name[0] == '/' then '_' else name[0]] + FriendlyName(name[1..])
  }

  /** The generated functions, one per named type in order; a later
      declaration with the same identifier replaces an earlier one. */
  function FunctionTable(named: seq<MessageDefinition>): map<string, MessageDefinition> {
    if named == [] then map[]
    else
      var last := named[|named| - 1];
      FunctionTable(named[..|named| - 1])[FriendlyName(NameOrEmpty(last)) := last]
  }

  /** When no two different named types share an identifier, every named type
      is the body of the function named after it. */
  lemma {:induction false} FunctionTableDistinct(named: seq<MessageDefinition>, t: MessageDefinition)
    requires forall i, j :: 0 <= i < j < |named| ==>
      (FriendlyName(NameOrEmpty(named[i])) == FriendlyName(NameOrEmpty(named[j])) ==> named[i] == named[j])
    requires t in named
    ensures FriendlyName(NameOrEmpty(t)) in FunctionTable(named)
    ensures FunctionTable(named)[FriendlyName(NameOrEmpty(t))] == t
  {
    var front := named[..|named| - 1];
    var last := named[|named| - 1];
    if t != last || FriendlyName(NameOrEmpty(t)) != FriendlyName(NameOrEmpty(last)) {
      assert named == front + [last];
      assert t in front;
      FunctionTableDistinct(front, t);
    }
  }

  /** Whether `f` makes the generated code call another type's function. */
  predicate CallsSubType(f: Field) {
    !f.isConstant && f.isComplex
  }

  /** Every complex field among `fields` names exactly one type. */
  predicate FieldsResolvable(types: seq<MessageDefinition>, fields: seq<Field>) {
    forall j :: 0 <= j < |fields| && CallsSubType(fields[j]) ==> |Matches(types, fields[j].typ)| == 1
  }

  /** Every complex field among `fields` has an entry in `targets`. */
  predicate FieldsCovered(fields: seq<Field>, targets: map<string, string>) {
    forall j :: 0 <= j < |fields| && CallsSubType(fields[j]) ==> fields[j].typ in targets
  }

  predicate Resolvable(types: seq<MessageDefinition>, bodies: seq<MessageDefinition>) {
    forall i :: 0 <= i < |bodies| ==> FieldsResolvable(types, bodies[i].definitions)
  }

  predicate Covers(bodies: seq<MessageDefinition>, targets: map<string, string>) {
    forall i :: 0 <= i < |bodies| ==> FieldsCovered(bodies[i].definitions, targets)
  }

  /** Each complex field type maps to the identifier of the type it names. */
  predicate TargetsResolve(types: seq<MessageDefinition>, targets: map<string, string>) {
    forall typ :: typ in targets ==>
      |Matches(types, typ)| == 1 && targets[typ] == FriendlyName(NameOrEmpty(Matches(types, typ)[0]))
  }

  /** The types whose bodies are generated: the named ones, then the root. */
  function Bodies(types: seq<MessageDefinition>): seq<MessageDefinition>
    requires types != []
  {
    NamedTypes(types) + [RootType(types)]
  }

  lemma TargetsPut(types: seq<MessageDefinition>, targets: map<string, string>, typ: string)
    requires TargetsResolve(types, targets) && |Matches(types, typ)| == 1
    ensures TargetsResolve(types, targets[typ := FriendlyName(NameOrEmpty(Matches(types, typ)[0]))])
  {
  }

  lemma FieldsStep(types: seq<MessageDefinition>, fields: seq<Field>, j: nat, before: map<string, string>,
    after: map<string, string>)
    requires j < |fields| && before.Keys <= after.Keys
    requires FieldsResolvable(types, fields[..j]) && FieldsCovered(fields[..j], before)
    requires CallsSubType(fields[j]) ==> |Matches(types, fields[j].typ)| == 1 && fields[j].typ in after
    ensures FieldsResolvable(types, fields[..j + 1]) && FieldsCovered(fields[..j + 1], after)
  {
    assert fields[..j + 1][j] == fields[j];
    assert forall k :: 0 <= k < j ==> fields[..j + 1][k] == fields[..j][k];
  }

  /** Resolves the complex fields of one body, adding them to `targets`. */
  method ResolveFields(types: seq<MessageDefinition>, fields: seq<Field>, targets: map<string, string>)
    returns (r: Result<map<string, string>>)
    requires TargetsResolve(types, targets)
    ensures r.Ok? <==> FieldsResolvable(types, fields)
    ensures r.Ok? ==> TargetsResolve(types, r.value) && targets.Keys <= r.value.Keys
    ensures r.Ok? ==> FieldsCovered(fields, r.value)
  {
    var acc := targets;
    for j := 0 to |fields|
      invariant TargetsResolve(types, acc) && targets.Keys <= acc.Keys
      invariant FieldsResolvable(types, fields[..j]) && FieldsCovered(fields[..j], acc)
    {
      var f := fields[j];
      ghost var before := acc;
      if CallsSubType(f) {
        var defType := FindTypeByName(types, f.typ);
        if defType.Err? {
          return Err(defType.error);
        }
        TargetsPut(types, acc, f.typ);
        acc := acc[f.typ := FriendlyName(defType.value.name.value)];
      }
      FieldsStep(types, fields, j, before, acc);
    }
    assert fields[..|fields|] == fields;
    return Ok(acc);
  }

  /** Resolves every body in turn. */
  method ResolveBodies(types: seq<MessageDefinition>, bodies: seq<MessageDefinition>)
    returns (r: Result<map<string, string>>)
    ensures r.Ok? <==> Resolvable(types, bodies)
    ensures r.Ok? ==> TargetsResolve(types, r.value) && Covers(bodies, r.value)
  {
    var targets: map<string, string> := map[];
    for i := 0 to |bodies|
      invariant TargetsResolve(types, targets)
      invariant Resolvable(types, bodies[..i]) && Covers(bodies[..i], targets)
    {
      var resolved := ResolveFields(types, bodies[i].definitions, targets);
      if resolved.Err? {
        return Err(resolved.error);
      }
      CoversGrow(bodies[..i], targets, resolved.value);
      targets := resolved.value;
      assert bodies[..i + 1] == bodies[..i] + [bodies[i]];
    }
    assert bodies[..|bodies|] == bodies;
    return Ok(targets);
  }

  lemma CoversGrow(bodies: seq<MessageDefinition>, targets: map<string, string>, more: map<string, string>)
    requires Covers(bodies, targets) && targets.Keys <= more.Keys
    ensures Covers(bodies, more)
  {
  }

  /** `createWriterAndSizeCalculator`: rejects an empty list, more than one
      unnamed type and any complex field that does not name exactly one type;
      otherwise the codec for the root type. */
  method CreateWriterAndSizeCalculator(types: seq<MessageDefinition>) returns (r: Result<Codec>)
    ensures types == [] ==> r.Err?
    ensures |UnnamedTypes(types)| > 1 ==> r.Err?
    ensures r.Ok? <==> types != [] && |UnnamedTypes(types)| <= 1 && Resolvable(types, Bodies(types))
    ensures r.Ok? ==> r.value.root == RootType(types)
    ensures r.Ok? ==> r.value.functions == FunctionTable(NamedTypes(types))
    ensures r.Ok? ==> TargetsResolve(types, r.value.targets) && Covers(Bodies(types), r.value.targets)
  {
    if |types| == 0 {
      return Err("no types given");
    }
    var unnamedTypes := UnnamedTypes(types);
    if |unnamedTypes| > 1 {
      return Err("multiple unnamed types");
    }
    var targets :- ResolveBodies(types, Bodies(types));
    return Ok(Codec(RootType(types), targets, FunctionTable(NamedTypes(types))));
  }

  /** In a compiled codec every non-empty complex type names a generated function. */
  lemma CompiledTargetsDefined(types: seq<MessageDefinition>, c: Codec)
    requires c.functions == FunctionTable(NamedTypes(types))
    requires TargetsResolve(types, c.targets)
    ensures forall typ :: typ in c.targets && typ != [] ==> Resolve(c, typ).Ok?
  {
    forall typ | typ in c.targets && typ != []
      ensures Resolve(c, typ).Ok?
    {
      var m := Matches(types, typ)[0];
      assert m in Matches(types, typ);
      MatchIsNamed(m, typ);
      FunctionTableDomain(NamedTypes(types), m);
    }
  }

  lemma {:induction false} FunctionTableDomain(named: seq<MessageDefinition>, t: MessageDefinition)
    requires t in named
    ensures FriendlyName(NameOrEmpty(t)) in FunctionTable(named)
  {
    var front := named[..|named| - 1];
    if t != named[|named| - 1] {
      assert named == front + [named[|named| - 1]];
      FunctionTableDomain(front, t);
    }
  }
}
