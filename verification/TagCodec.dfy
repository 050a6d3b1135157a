/**
 The tag-driven serializer of nhp/core/ztdo/ztdo.go.

 Go's reflection is modelled by descriptors: a Fields value describes a struct type with its tags,
 a Values value is a struct of that type. Everything here holds for every descriptor.
 */
module TagCodec {
  import opened Bytes

  /** The field types that marshal and unmarshal support; "" is an absent tag. */
  datatype FieldType =
    | Array(size: nat, lengthFor: string, lengthContinue: bool, subtractFrom: string)
    | ByteSlice
    | Nested(fields: Fields)
    | StructSlice(element: Fields)

  datatype Fields = End | Field(name: string, ty: FieldType, rest: Fields)

  datatype Value = Raw(data: bytes) | Struct(fields: Values) | Slice(elements: seq<Values>)

  datatype Values = NoValues | Values(head: Value, tail: Values)

  // ---- marshal ----

  function MarshalValue(v: Value): bytes
    decreases v, 0
  {
    match v
    case Raw(data) => data
    case Struct(fields) => Marshal(fields)
    case Slice(elements) => MarshalElements(elements)
  }

  function Marshal(vs: Values): bytes
    decreases vs, 0
  {
    match vs
    case NoValues => []
    case Values(head, tail) => MarshalValue(head) + Marshal(tail)
  }

  function MarshalElements(es: seq<Values>): bytes
    decreases es, 0
  {
    if es == [] then [] else Marshal(es[0]) + MarshalElements(es[1..])
  }

  // ---- The parser's globals, and what one fixed-size array does to them ----

  /** lengthMap and lengthContinueIndicator. */
  datatype Control = Control(lengths: map<string, nat>, more: bool)

  /** Go reads a missing map key as zero. */
  function LengthOf(ctl: Control, name: string): nat {
    if name in ctl.lengths then ctl.lengths[name] else 0
  }

  /** preprocessContinuation takes the top bit out of the last byte before the length is read. */
  function CountedBytes(data: bytes, lengthContinue: bool): (r: bytes)
    requires lengthContinue ==> data != []
    ensures |r| == |data|
  {
    if lengthContinue then data[..|data| - 1] + [data[|data| - 1] % 128] else data
  }

  /** None is Go's index panic on an empty array with a continuation tag. */
  function AfterArray(ty: FieldType, data: bytes, ctl: Control): Option<Control>
    requires ty.Array? && |data| == ty.size
  {
    if ty.lengthContinue && data == [] then None
    else
      var more := if ty.lengthContinue then data[|data| - 1] >= 128 else ctl.more;
      var counted := CountedBytes(data, ty.lengthContinue);
      var number := FromLittleEndian(if |counted| < 4 then counted else counted[..4]);
      var set1 := if ty.lengthFor == "" then ctl.lengths else ctl.lengths[ty.lengthFor := number];
      var c1 := Control(set1, more);
      // Go's uint32 subtraction wraps.
      var left := (LengthOf(c1, ty.subtractFrom) - ty.size) % U32;
      Some(if ty.subtractFrom == "" then c1 else c1.(lengths := set1[ty.subtractFrom := left]))
  }

  // ---- unmarshal ----

  datatype Parsed<+T> = Parsed(value: T, pos: nat, control: Control) | Failed

  /**
   One os.File.Read of a regular file into a zeroed buffer of n bytes: end of file is an error only
   if nothing is left, and a short read leaves zeros behind without an error.
   */
  function ReadAt(file: bytes, pos: nat, n: nat): (r: Option<(bytes, nat)>)
    requires pos <= |file|
    ensures r.Some? ==> |r.value.0| == n && pos <= r.value.1 <= |file|
  {
    if n > 0 && pos == |file| then None
    else
      var k := if n <= |file| - pos then n else |file| - pos;
      Some((file[pos..pos + k] + Zeros(n - k), pos + k))
  }

  function ParseValue(name: string, ty: FieldType, file: bytes, pos: nat, ctl: Control): (r: Parsed<Value>)
    requires pos <= |file|
    ensures r.Parsed? ==> pos <= r.pos <= |file|
    decreases ty, 0, 0
  {
    match ty
    case Array(size, _, _, _) => (
      match ReadAt(file, pos, size)
      case None => Failed
      case Some((data, p)) =>
        match AfterArray(ty, data, ctl)
        case None => Failed
        case Some(c) => Parsed(Raw(data), p, c))
    case ByteSlice => (
      match ReadAt(file, pos, LengthOf(ctl, name))
      case None => Failed
      case Some((data, p)) => Parsed(Raw(data), p, ctl))
    case Nested(fields) => (
      match Parse(fields, file, pos, ctl)
      case Failed => Failed
      case Parsed(vs, p, c) => Parsed(Struct(vs), p, c))
    case StructSlice(element) =>
      match ParseElements(element, file, pos, ctl)
      case Failed => Failed
      case Parsed(es, p, c) => Parsed(Slice(es), p, c)
  }

  function Parse(fs: Fields, file: bytes, pos: nat, ctl: Control): (r: Parsed<Values>)
    requires pos <= |file|
    ensures r.Parsed? ==> pos <= r.pos <= |file|
    decreases fs, 0, 0
  {
    match fs
    case End => Parsed(NoValues, pos, ctl)
    case Field(name, ty, rest) =>
      match ParseValue(name, ty, file, pos, ctl)
      case Failed => Failed
      case Parsed(v, p, c) =>
        match Parse(rest, file, p, c)
        case Failed => Failed
        case Parsed(vs, p', c') => Parsed(Values(v, vs), p', c')
  }

  /**
   The elements of a struct slice, read while the continuation indicator is set. An element that
   consumes nothing and asks for more would keep Go in its loop for ever: that is Failed here.
   */
  function ParseElements(element: Fields, file: bytes, pos: nat, ctl: Control): (r: Parsed<seq<Values>>)
    requires pos <= |file|
    ensures r.Parsed? ==> pos <= r.pos <= |file|
    decreases element, 1, |file| - pos
  {
    match Parse(element, file, pos, ctl)
    case Failed => Failed
    case Parsed(v, p, c) =>
      if !c.more then Parsed([v], p, c)
      else if p == pos then Failed
      else
        match ParseElements(element, file, p, c)
        case Failed => Failed
        case Parsed(es, p', c') => Parsed([v] + es, p', c')
  }

  /** unmarshal with the state it works on: the open file and the two globals. */
  class Decoder {
    const file: bytes
    var pos: nat
    var lengths: map<string, nat>
    var more: bool

    ghost predicate Valid()
      reads this
    {
      pos <= |file|
    }

    function Globals(): Control
      reads this
    {
      Control(lengths, more)
    }

    /** toStructure: a new lengthMap, while the continuation indicator keeps its last value. */
    constructor (file: bytes, pos: nat, more: bool)
      requires pos <= |file|
      ensures Valid()
      ensures this.file == file && this.pos == pos && Globals() == Control(map[], more)
    {
      this.file, this.pos, this.lengths, this.more := file, pos, map[], more;
    }

    method Read(n: nat) returns (r: Option<bytes>)
      requires Valid()
      modifies this`pos
      ensures Valid()
      ensures match ReadAt(file, old(pos), n)
              case None => r == None && pos == old(pos)
              case Some((data, p)) => r == Some(data) && pos == p
    {
      match ReadAt(file, pos, n) {
        case None => r := None;
        case Some((data, p)) => r, pos := Some(data), p;
      }
    }

    method UnmarshalValue(name: string, ty: FieldType) returns (r: Option<Value>)
      requires Valid()
      modifies this
      ensures Valid()
      ensures match ParseValue(name, ty, file, old(pos), old(Globals()))
              case Failed => r == None
              case Parsed(v, p, c) => r == Some(v) && pos == p && Globals() == c
      decreases ty, 0, 0
    {
      match ty {
        case Array(size, _, _, _) =>
          var data := Read(size);
          if data == None { return None; }
          match AfterArray(ty, data.value, Globals()) {
            case None => r := None;
            case Some(c) => r, lengths, more := Some(Raw(data.value)), c.lengths, c.more;
          }
        case ByteSlice =>
          var data := Read(LengthOf(Globals(), name));
          r := if data == None then None else Some(Raw(data.value));
        case Nested(fields) =>
          var vs := Unmarshal(fields);
          r := if vs == None then None else Some(Struct(vs.value));
        case StructSlice(element) =>
          var es := UnmarshalElements(element);
          r := if es == None then None else Some(Slice(es.value));
      }
    }

    method Unmarshal(fs: Fields) returns (r: Option<Values>)
      requires Valid()
      modifies this
      ensures Valid()
      ensures match Parse(fs, file, old(pos), old(Globals()))
              case Failed => r == None
              case Parsed(vs, p, c) => r == Some(vs) && pos == p && Globals() == c
      decreases fs, 0, 0
    {
      match fs {
        case End => r := Some(NoValues);
        case Field(name, ty, rest) =>
          var v := UnmarshalValue(name, ty);
          if v == None { return None; }
          var vs := Unmarshal(rest);
          r := if vs == None then None else Some(Values(v.value, vs.value));
      }
    }

    method UnmarshalElements(element: Fields) returns (r: Option<seq<Values>>)
      requires Valid()
      modifies this
      ensures Valid()
      ensures match ParseElements(element, file, old(pos), old(Globals()))
              case Failed => r == None
              case Parsed(es, p, c) => r == Some(es) && pos == p && Globals() == c
      decreases element, 1, 0
    {
      ghost var whole := ParseElements(element, file, pos, Globals());
      var es: seq<Values> := [];
      assert whole.Parsed? ==> es + whole.value == whole.value;
      while true
        invariant Valid()
        invariant match ParseElements(element, file, pos, Globals())
                  case Failed => whole == Failed
                  case Parsed(rest, p, c) => whole == Parsed(es + rest, p, c)
        decreases |file| - pos
      {
        var start := pos;
        var v := Unmarshal(element);
        if v == None { return None; }
        ghost var rest := if more && pos != start then ParseElements(element, file, pos, Globals()) else Failed;
        assert rest.Parsed? ==> es + ([v.value] + rest.value) == es + [v.value] + rest.value;
        es := es + [v.value];
        if !more { return Some(es); }
        if pos == start { return None; }
      }
    }
  }

  // ---- What parsing consumed is what marshal writes back ----

  /** The bytes of out are those read from pos to p, padded with zeros only where the file ended early. */
  predicate Consumed(file: bytes, pos: nat, p: nat, out: bytes) {
    && pos <= p <= |file|
    && p - pos <= |out|
    && out == file[pos..p] + Zeros(|out| - (p - pos))
    && (p - pos < |out| ==> p == |file|)
  }

  lemma ConsumedConcat(file: bytes, pos: nat, p: nat, p': nat, a: bytes, b: bytes)
    requires Consumed(file, pos, p, a) && Consumed(file, p, p', b)
    ensures Consumed(file, pos, p', a + b)
  {
    if p - pos < |a| {
      assert p' == p == |file| && file[p..p'] == [];
      assert b == Zeros(|b|);
      assert Zeros(|a| - (p - pos)) + Zeros(|b|) == Zeros(|a + b| - (p' - pos));
    } else {
      assert a == file[pos..p];
      assert file[pos..p] + file[p..p'] == file[pos..p'];
    }
  }

  lemma {:induction false} ParseValueConsumes(name: string, ty: FieldType, file: bytes, pos: nat, ctl: Control)
    requires pos <= |file|
    ensures var r := ParseValue(name, ty, file, pos, ctl);
            r.Parsed? ==> Consumed(file, pos, r.pos, MarshalValue(r.value))
    decreases ty, 0, 0
  {
    match ty
    case Array(_, _, _, _) =>
    case ByteSlice =>
    case Nested(fields) => ParseConsumes(fields, file, pos, ctl);
    case StructSlice(element) => ParseElementsConsumes(element, file, pos, ctl);
  }

  /** For every struct type: marshal of what unmarshal returned is exactly what it consumed. */
  lemma {:induction false} ParseConsumes(fs: Fields, file: bytes, pos: nat, ctl: Control)
    requires pos <= |file|
    ensures var r := Parse(fs, file, pos, ctl);
            r.Parsed? ==> Consumed(file, pos, r.pos, Marshal(r.value))
    decreases fs, 0, 0
  {
    match fs
    case End =>
    case Field(name, ty, rest) =>
      ParseValueConsumes(name, ty, file, pos, ctl);
      var v := ParseValue(name, ty, file, pos, ctl);
      if v.Parsed? {
        ParseConsumes(rest, file, v.pos, v.control);
        var vs := Parse(rest, file, v.pos, v.control);
        if vs.Parsed? {
          ConsumedConcat(file, pos, v.pos, vs.pos, MarshalValue(v.value), Marshal(vs.value));
        }
      }
  }

  lemma {:induction false} ParseElementsConsumes(element: Fields, file: bytes, pos: nat, ctl: Control)
    requires pos <= |file|
    ensures var r := ParseElements(element, file, pos, ctl);
            r.Parsed? ==> Consumed(file, pos, r.pos, MarshalElements(r.value))
    decreases element, 1, |file| - pos
  {
    ParseConsumes(element, file, pos, ctl);
    var v := Parse(element, file, pos, ctl);
    if v.Parsed? {
      if !v.control.more {
        assert MarshalElements([v.value]) == Marshal(v.value);
      } else if v.pos != pos {
        ParseElementsConsumes(element, file, v.pos, v.control);
        var es := ParseElements(element, file, v.pos, v.control);
        if es.Parsed? {
          assert ([v.value] + es.value)[1..] == es.value;
          ConsumedConcat(file, pos, v.pos, es.pos, Marshal(v.value), MarshalElements(es.value));
        }
      }
    }
  }

  /** Re-serializing gives back exactly the consumed bytes if and only if no read came up short. */
  lemma ReserializeExactly(fs: Fields, file: bytes, pos: nat, ctl: Control)
    requires pos <= |file| && Parse(fs, file, pos, ctl).Parsed?
    ensures var r := Parse(fs, file, pos, ctl);
            Marshal(r.value) == file[pos..r.pos] <==> pos + |Marshal(r.value)| <= |file|
  {
    ParseConsumes(fs, file, pos, ctl);
  }

  // ---- Which values survive the trip through bytes ----

  /** The control state after a value, or None if its length fields do not describe it. */
  function CheckValue(name: string, ty: FieldType, v: Value, ctl: Control): Option<Control>
    decreases ty, 0, 0
  {
    match (ty, v)
    case (Array(size, _, _, _), Raw(data)) => if |data| == size then AfterArray(ty, data, ctl) else None
    case (ByteSlice, Raw(data)) => if |data| == LengthOf(ctl, name) then Some(ctl) else None
    case (Nested(fields), Struct(vs)) => Check(fields, vs, ctl)
    case (StructSlice(element), Slice(es)) => CheckElements(element, es, ctl)
    case (_, _) => None
  }

  function Check(fs: Fields, vs: Values, ctl: Control): Option<Control>
    decreases fs, 0, 0
  {
    match (fs, vs)
    case (End, NoValues) => Some(ctl)
    case (Field(name, ty, rest), Values(v, tail)) => (
      match CheckValue(name, ty, v, ctl)
      case None => None
      case Some(c) => Check(rest, tail, c))
    case (_, _) => None
  }

  /** Every element but the last asks for more, and no such element is empty. */
  function CheckElements(element: Fields, es: seq<Values>, ctl: Control): Option<Control>
    decreases element, 1, |es|
  {
    if es == [] then None
    else
      match Check(element, es[0], ctl)
      case None => None
      case Some(c) =>
        if |es| == 1 then (if c.more then None else Some(c))
        else if !c.more || Marshal(es[0]) == [] then None
        else CheckElements(element, es[1..], c)
  }

  /** A field that checks, before the rest of its structure. */
  lemma CheckField(name: string, ty: FieldType, rest: Fields, v: Value, tail: Values, ctl: Control, after: Control)
    requires CheckValue(name, ty, v, ctl) == Some(after)
    ensures Check(Field(name, ty, rest), Values(v, tail), ctl) == Check(rest, tail, after)
  {
  }

  predicate Holds(file: bytes, pos: nat, s: bytes) {
    pos + |s| <= |file| && file[pos..pos + |s|] == s
  }

  lemma HoldsConcat(file: bytes, pos: nat, a: bytes, b: bytes)
    requires Holds(file, pos, a + b)
    ensures Holds(file, pos, a) && Holds(file, pos + |a|, b)
  {
    assert file[pos..pos + |a|] == (a + b)[..|a|];
    assert file[pos + |a|..pos + |a| + |b|] == (a + b)[|a|..];
  }

  lemma {:induction false} CheckedValueParses(
    name: string, ty: FieldType, v: Value, ctl: Control, file: bytes, pos: nat)
    requires CheckValue(name, ty, v, ctl).Some? && Holds(file, pos, MarshalValue(v))
    ensures ParseValue(name, ty, file, pos, ctl)
         == Parsed(v, pos + |MarshalValue(v)|, CheckValue(name, ty, v, ctl).value)
    decreases ty, 0, 0
  {
    match ty
    case Array(_, _, _, _) => assert file[pos..pos + |v.data|] + Zeros(0) == v.data;
    case ByteSlice => assert file[pos..pos + |v.data|] + Zeros(0) == v.data;
    case Nested(fields) => CheckedParses(fields, v.fields, ctl, file, pos);
    case StructSlice(element) => CheckedElementsParse(element, v.elements, ctl, file, pos);
  }

  /** unmarshal after marshal returns the same structure and stops right behind it in the file. */
  lemma {:induction false} CheckedParses(fs: Fields, vs: Values, ctl: Control, file: bytes, pos: nat)
    requires Check(fs, vs, ctl).Some? && Holds(file, pos, Marshal(vs))
    ensures Parse(fs, file, pos, ctl) == Parsed(vs, pos + |Marshal(vs)|, Check(fs, vs, ctl).value)
    decreases fs, 0, 0
  {
    hide CheckValue, ParseValue, MarshalValue;
    match fs
    case End =>
    case Field(name, ty, rest) =>
      var m := MarshalValue(vs.head);
      HoldsConcat(file, pos, m, Marshal(vs.tail));
      CheckedValueParses(name, ty, vs.head, ctl, file, pos);
      CheckedParses(rest, vs.tail, CheckValue(name, ty, vs.head, ctl).value, file, pos + |m|);
  }

  lemma {:induction false} CheckedElementsParse(
    element: Fields, es: seq<Values>, ctl: Control, file: bytes, pos: nat)
    requires CheckElements(element, es, ctl).Some? && Holds(file, pos, MarshalElements(es))
    ensures ParseElements(element, file, pos, ctl)
         == Parsed(es, pos + |MarshalElements(es)|, CheckElements(element, es, ctl).value)
    decreases element, 1, |es|
  {
    hide Check, Parse, Marshal;
    var m := Marshal(es[0]);
    HoldsConcat(file, pos, m, MarshalElements(es[1..]));
    CheckedParses(element, es[0], ctl, file, pos);
    if |es| == 1 {
      assert MarshalElements(es[1..]) == [];
      assert es == [es[0]];
    } else {
      CheckedElementsParse(element, es[1..], Check(element, es[0], ctl).value, file, pos + |m|);
      assert es == [es[0]] + es[1..];
    }
  }

  lemma {:induction false} ParsedValueChecks(name: string, ty: FieldType, file: bytes, pos: nat, ctl: Control)
    requires pos <= |file|
    ensures var r := ParseValue(name, ty, file, pos, ctl);
            r.Parsed? ==> CheckValue(name, ty, r.value, ctl) == Some(r.control)
    decreases ty, 0, 0
  {
    match ty
    case Array(_, _, _, _) =>
    case ByteSlice =>
    case Nested(fields) => ParsedChecks(fields, file, pos, ctl);
    case StructSlice(element) => ParsedElementsCheck(element, file, pos, ctl);
  }

  /** The converse: unmarshal only ever returns structures whose length fields describe them. */
  lemma {:induction false} ParsedChecks(fs: Fields, file: bytes, pos: nat, ctl: Control)
    requires pos <= |file|
    ensures var r := Parse(fs, file, pos, ctl);
            r.Parsed? ==> Check(fs, r.value, ctl) == Some(r.control)
    decreases fs, 0, 0
  {
    match fs
    case End =>
    case Field(name, ty, rest) =>
      ParsedValueChecks(name, ty, file, pos, ctl);
      var v := ParseValue(name, ty, file, pos, ctl);
      if v.Parsed? {
        ParsedChecks(rest, file, v.pos, v.control);
      }
  }

  lemma {:induction false} ParsedElementsCheck(element: Fields, file: bytes, pos: nat, ctl: Control)
    requires pos <= |file|
    ensures var r := ParseElements(element, file, pos, ctl);
            r.Parsed? ==> r.value != [] && CheckElements(element, r.value, ctl) == Some(r.control)
    decreases element, 1, |file| - pos
  {
    ParsedChecks(element, file, pos, ctl);
    ParseConsumes(element, file, pos, ctl);
    var v := Parse(element, file, pos, ctl);
    if v.Parsed? && v.control.more && v.pos != pos {
      ParsedElementsCheck(element, file, v.pos, v.control);
      var es := ParseElements(element, file, v.pos, v.control);
      if es.Parsed? {
        assert ([v.value] + es.value)[1..] == es.value;
      }
    }
  }
}
