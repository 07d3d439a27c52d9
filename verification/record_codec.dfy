/** The declarative record codec of movutils.py: a record layout is a list of
    fields (fixed-width big-endian values, padding, nested records, counted
    lists, length-driven byte strings, and lists of sub-atoms); decoding
    reads the fields in order, remembering every value by name so that later
    fields can take their count or length from it, and encoding writes them
    in order, deriving the hidden fields from the visible ones. */
module RecordCodec {
  import opened Wrappers
  import opened Bytes
  import opened AtomReader

  /** One item of a big-endian `struct` format: an unsigned byte (`B`), an
      unsigned short (`H`), an unsigned int (`I`) or a pad byte (`x`). A
      format such as `>3B` or `4x` is the sequence of its items. */
  datatype Code = B | H | I | X

  function Width(c: Code): nat
  {
    match c
    case B => 1
    case H => 2
    case I => 4
    case X => 1
  }

  /** `struct.calcsize`: with `>` there is no alignment padding. */
  function FormatSize(f: seq<Code>): nat
  {
    if f == [] then 0 else Width(f[0]) + FormatSize(f[1..])
  }

  /** The number of values a format packs: pad bytes take none. */
  function Arity(f: seq<Code>): nat
  {
    if f == [] then 0 else (if f[0] == X then 0 else 1) + Arity(f[1..])
  }

  /** The range `struct.pack` accepts for an item. */
  predicate Fits(c: Code, v: int)
  {
    match c
    case B => 0 <= v < 0x100
    case H => 0 <= v < 0x1_0000
    case I => 0 <= v < U32_LIMIT
    case X => true
  }

  function ReadCode(c: Code, b: seq<Byte>): (v: int)
    requires c != X && |b| == Width(c)
    ensures Fits(c, v)
  {
    match c
    case B => b[0]
    case H => (b[0] as int) * 0x100 + b[1]
    case I => ReadU32(b)
  }

  function WriteCode(c: Code, v: int): (b: seq<Byte>)
    requires c != X && Fits(c, v)
    ensures |b| == Width(c)
  {
    match c
    case B => [v]
    case H => [v / 0x100, v % 0x100]
    case I => U32(v)
  }

  lemma ReadWriteCode(c: Code, v: int)
    requires c != X && Fits(c, v)
    ensures ReadCode(c, WriteCode(c, v)) == v
  {
    if c == I {
      ReadU32OfU32(v);
    }
  }

  /** `struct.unpack` on exactly the right number of bytes. */
  function UnpackCodes(f: seq<Code>, b: seq<Byte>): (vs: seq<int>)
    requires |b| == FormatSize(f)
    ensures |vs| == Arity(f)
  {
    if f == [] then []
    else
      var w := Width(f[0]);
      (if f[0] == X then [] else [ReadCode(f[0], b[..w])]) + UnpackCodes(f[1..], b[w..])
  }

  /** `struct.pack`: one value per non-pad item, each within range; pad
      bytes are zero. Any mismatch is a `struct.error`, reported as a
      `PackError` by the codec. */
  function PackCodes(f: seq<Code>, vs: seq<int>): (r: Result<seq<Byte>>)
    ensures r.Ok? ==> |r.value| == FormatSize(f)
    ensures r.Err? ==> r.error == PackError
  {
    if f == [] then (if vs == [] then Ok([]) else Err(PackError))
    else if f[0] == X then
      var rest :- PackCodes(f[1..], vs);
      Ok([0] + rest)
    else if vs == [] || !Fits(f[0], vs[0]) then Err(PackError)
    else
      var rest :- PackCodes(f[1..], vs[1..]);
      Ok(WriteCode(f[0], vs[0]) + rest)
  }

  /** Each value is in range for the item it is packed as. */
  predicate AllFit(f: seq<Code>, vs: seq<int>)
    decreases f
  {
    if f == [] then vs == []
    else if f[0] == X then AllFit(f[1..], vs)
    else vs != [] && Fits(f[0], vs[0]) && AllFit(f[1..], vs[1..])
  }

  /** Packing succeeds exactly when the values match the format in number
      and range, and unpacking the result gives the values back. */
  lemma {:induction false} PackCodesRoundTrip(f: seq<Code>, vs: seq<int>)
    ensures PackCodes(f, vs).Ok? <==> AllFit(f, vs)
    ensures PackCodes(f, vs).Ok? ==> UnpackCodes(f, PackCodes(f, vs).value) == vs
    decreases f
  {
    if f != [] {
      var w := Width(f[0]);
      if f[0] == X {
        PackCodesRoundTrip(f[1..], vs);
        if PackCodes(f, vs).Ok? {
          var b := PackCodes(f, vs).value;
          assert b[w..] == PackCodes(f[1..], vs).value;
        }
      } else if vs != [] && Fits(f[0], vs[0]) {
        PackCodesRoundTrip(f[1..], vs[1..]);
        if PackCodes(f, vs).Ok? {
          var b := PackCodes(f, vs).value;
          assert b[..w] == WriteCode(f[0], vs[0]);
          assert b[w..] == PackCodes(f[1..], vs[1..]).value;
          ReadWriteCode(f[0], vs[0]);
        }
      }
    }
  }

  lemma {:induction false} AllFitArity(f: seq<Code>, vs: seq<int>)
    requires AllFit(f, vs)
    ensures |vs| == Arity(f)
    decreases f
  {
    if f != [] {
      if f[0] == X {
        AllFitArity(f[1..], vs);
      } else {
        AllFitArity(f[1..], vs[1..]);
      }
    }
  }

  /** The values unpacked from any bytes are in range. */
  lemma {:induction false} UnpackCodesFit(f: seq<Code>, b: seq<Byte>)
    requires |b| == FormatSize(f)
    ensures AllFit(f, UnpackCodes(f, b))
    decreases f
  {
    if f != [] {
      var w := Width(f[0]);
      UnpackCodesFit(f[1..], b[w..]);
      if f[0] != X {
        var vs := UnpackCodes(f, b);
        assert vs[1..] == UnpackCodes(f[1..], b[w..]);
      } else {
        assert UnpackCodes(f, b) == UnpackCodes(f[1..], b[w..]);
      }
    }
  }

  /** A decoded or encoded field value. */
  datatype Value =
    | Num(n: int)                       // a format with exactly one item
    | Nums(ns: seq<int>)                // a format with none (padding) or several
    | Blob(bytes: seq<Byte>)            // a string field
    | Items(items: seq<Value>)          // a list field, or the records of a sub-atoms field
    | Rec(kind: string, fields: seq<Value>)  // a record: its visible fields, in order

  /** Where a list field takes its number of items: a literal, a field
      decoded before it, or the one context function of the catalog,
      `ctx[count] if ctx[flag] == 0 else 0`. */
  datatype Count = Times(n: nat) | CountOf(name: string) | CountIfZero(count: string, flag: string)

  /** Where a string field takes its length: a literal, a field decoded
      before it less a constant, or the declared size of the enclosing atom
      less a constant. */
  datatype Length = Literal(n: nat) | LengthOf(name: string, less: nat) | AtomSizeLess(less: nat)

  /** The getters of the catalog's hidden fields: `len(s.x) + k`, and
      `len(s.x) if s.flag == 0 else 0`. */
  datatype Getter = LenPlus(name: string, plus: nat) | LenIfZero(list: string, flag: string)

  /** The item type of a list field: a `struct` format or a nested record. */
  datatype Elem = Codes(codes: seq<Code>) | Sub(layout: Layout)

  /** A registered sub-atom type: the tag it is read from and its layout. */
  datatype Entry = Entry(tag: Tag, layout: Layout)

  /** `Field`, `Field` wrapping a `Struct`, `ListField`, `StringField` and
      `SubAtomsField`. An empty name is an unnamed field (padding). */
  datatype Field =
    | Plain(name: string, hidden: bool, getter: Option<Getter>, codes: seq<Code>)
    | Nested(name: string, layout: Layout)
    | List(name: string, elem: Elem, times: Count)
    | Str(name: string, length: Length)
    | SubAtoms(name: string, registry: seq<Entry>)

  /** A `Struct` subclass: its name and `_fields_`. */
  datatype Layout = Layout(name: string, fields: seq<Field>)

  /** A field is a constructor argument and an attribute of the record
      when it is named and not hidden. */
  predicate Visible(f: Field)
  {
    f.name != "" && !(f.Plain? && f.hidden)
  }

  function VisibleNames(fs: seq<Field>): (r: seq<string>)
  {
    if fs == [] then []
    else (if Visible(fs[0]) then [fs[0].name] else []) + VisibleNames(fs[1..])
  }

  // ---------------------------------------------------------------------
  // Declaring fields and layouts

  /** `Field(name, fmt, getter, hidden)`: a trailing `?` strips off and
      marks the field hidden; a named hidden field needs a getter, and only a
      named hidden field may have one. */
  function DeclarePlain(name: string, codes: seq<Code>, getter: Option<Getter>, hidden: bool): (r: Result<Field>)
  {
    var marked := |name| > 0 && name[|name| - 1] == '?';
    var n := if marked then name[..|name| - 1] else name;
    var h := hidden || marked;
    if h && n != "" && getter.None? then Err(ValueError)
    else if !(h && n != "") && getter.Some? then Err(ValueError)
    else Ok(Plain(n, h, getter, codes))
  }

  /** What a declaration produces: the name loses a trailing `?`, which
      makes the field hidden, and the declaration is accepted exactly when a
      getter is given for a named hidden field and for no other. */
  lemma DeclarePlainSpec(name: string, codes: seq<Code>, getter: Option<Getter>, hidden: bool)
    ensures var marked := |name| > 0 && name[|name| - 1] == '?';
            var n := if marked then name[..|name| - 1] else name;
            && (DeclarePlain(name, codes, getter, hidden).Ok? <==> ((hidden || marked) && n != "" <==> getter.Some?))
            && (DeclarePlain(name, codes, getter, hidden).Ok? ==>
                  DeclarePlain(name, codes, getter, hidden).value == Plain(n, hidden || marked, getter, codes))
            && (DeclarePlain(name, codes, getter, hidden).Err? ==>
                  DeclarePlain(name, codes, getter, hidden).error == ValueError)
  {
  }

  /** The size of a field when it is fixed: lists, strings and sub-atoms
      have none. */
  function FieldSize(f: Field): Option<nat>
    decreases f, 1
  {
    match f
    case Plain(_, _, _, codes) => Some(FormatSize(codes))
    case Nested(_, l) => StructSize(l)
    case _ => None
  }

  /** `_struct_size_` from `__init_subclass__`: the sum of the field sizes,
      or none once a field without a fixed size occurs. */
  function StructSize(l: Layout): Option<nat>
    decreases l, 0
  {
    SizeOfFields(l.fields)
  }

  function SizeOfFields(fs: seq<Field>): Option<nat>
    decreases fs
  {
    if fs == [] then Some(0)
    else
      match FieldSize(fs[0])
      case None => None
      case Some(n) =>
        match SizeOfFields(fs[1..])
        case None => None
        case Some(m) => Some(n + m)
  }

  // ---------------------------------------------------------------------
  // Records as Python objects: construction, attributes

  /** The position among the visible fields of the first with a name. */
  function VisibleIndex(fs: seq<Field>, name: string): (r: Option<nat>)
    ensures r.Some? <==> name in VisibleNames(fs)
    ensures r.Some? ==> r.value < |VisibleNames(fs)| && VisibleNames(fs)[r.value] == name
  {
    if fs == [] then None
    else if Visible(fs[0]) && fs[0].name == name then Some(0)
    else
      match VisibleIndex(fs[1..], name)
      case None => None
      case Some(k) => Some(if Visible(fs[0]) then k + 1 else k)
  }

  /** `_fields_map_[name]`: the last field declared with that name. */
  function Declared(fs: seq<Field>, name: string): (r: Option<Field>)
    ensures r.Some? ==> r.value in fs && r.value.name == name
  {
    if fs == [] || name == "" then None
    else if fs[|fs| - 1].name == name then Some(fs[|fs| - 1])
    else Declared(fs[..|fs| - 1], name)
  }

  /** A visible attribute of a record. */
  function GetVisible(l: Layout, vals: seq<Value>, name: string): Result<Value>
  {
    match VisibleIndex(l.fields, name)
    case None => Err(AttributeError)
    case Some(k) => if k < |vals| then Ok(vals[k]) else Err(AttributeError)
  }

  /** Python's `len()`. */
  function Len(v: Value): (r: Result<int>)
  {
    match v
    case Items(xs) => Ok(|xs|)
    case Blob(b) => Ok(|b|)
    case Nums(ns) => Ok(|ns|)
    case _ => Err(TypeError)
  }

  /** A getter applied to the record. Getters read visible attributes only. */
  function EvalGetter(l: Layout, vals: seq<Value>, g: Getter): Result<Value>
  {
    match g
    case LenPlus(name, plus) =>
      var v :- GetVisible(l, vals, name);
      var n :- Len(v);
      Ok(Num(n + plus))
    case LenIfZero(list, flag) =>
      var f :- GetVisible(l, vals, flag);
      if f == Num(0) then
        var v :- GetVisible(l, vals, list);
        var n :- Len(v);
        Ok(Num(n))
      else Ok(Num(0))
  }

  /** `getattr(record, name)`: a visible field's value, or a hidden field's
      value from its getter (`__getattr__`); anything else is an
      `AttributeError`. */
  function GetAttr(l: Layout, vals: seq<Value>, name: string): (r: Result<Value>)
    ensures name in VisibleNames(l.fields) && |vals| == |VisibleNames(l.fields)| ==>
              r == Ok(vals[VisibleIndex(l.fields, name).value])
  {
    if name in VisibleNames(l.fields) then GetVisible(l, vals, name)
    else
      match Declared(l.fields, name)
      case Some(f) =>
        if f.Plain? && f.hidden then
          if f.getter.Some? then EvalGetter(l, vals, f.getter.value) else Err(AssertionError)
        else Err(AttributeError)
      case None => Err(AttributeError)
  }

  /** With distinct visible names, the `k`-th visible name reads the `k`-th value. */
  lemma GetAttrAt(l: Layout, vals: seq<Value>, k: nat)
    requires Distinct(VisibleNames(l.fields)) && |vals| == |VisibleNames(l.fields)| && k < |vals|
    ensures GetAttr(l, vals, VisibleNames(l.fields)[k]) == Ok(vals[k])
    ensures GetVisible(l, vals, VisibleNames(l.fields)[k]) == Ok(vals[k])
  {
    assert VisibleNames(l.fields)[k] in VisibleNames(l.fields);
  }

  /** A hidden field with a getter reads as what the getter derives. */
  lemma GetAttrDerived(l: Layout, vals: seq<Value>, name: string, g: Getter, codes: seq<Code>)
    requires name !in VisibleNames(l.fields) && Declared(l.fields, name) == Some(Plain(name, true, Some(g), codes))
    ensures GetAttr(l, vals, name) == EvalGetter(l, vals, g)
  {
  }

  /** A hidden field derived from the length of the `k`-th visible field
      reads as that length plus the getter's offset ... */
  lemma GetAttrLenPlus(l: Layout, vals: seq<Value>, name: string, k: nat, plus: nat, codes: seq<Code>, n: int)
    requires Distinct(VisibleNames(l.fields)) && |vals| == |VisibleNames(l.fields)| && k < |vals|
    requires name !in VisibleNames(l.fields)
    requires Declared(l.fields, name) == Some(Plain(name, true, Some(LenPlus(VisibleNames(l.fields)[k], plus)), codes))
    requires Len(vals[k]) == Ok(n)
    ensures GetAttr(l, vals, name) == Ok(Num(n + plus))
  {
    GetAttrAt(l, vals, k);
  }

  /** ... and fails when that field has no length. */
  lemma GetAttrLenPlusErr(l: Layout, vals: seq<Value>, name: string, k: nat, plus: nat, codes: seq<Code>)
    requires Distinct(VisibleNames(l.fields)) && |vals| == |VisibleNames(l.fields)| && k < |vals|
    requires name !in VisibleNames(l.fields)
    requires Declared(l.fields, name) == Some(Plain(name, true, Some(LenPlus(VisibleNames(l.fields)[k], plus)), codes))
    requires Len(vals[k]).Err?
    ensures GetAttr(l, vals, name).Err?
  {
    GetAttrAt(l, vals, k);
  }

  /** `setattr(record, name, value)`: only a declared field that is not
      hidden can be assigned. */
  function SetAttr(l: Layout, vals: seq<Value>, name: string, v: Value): (r: Result<seq<Value>>)
  {
    match Declared(l.fields, name)
    case None => Err(AttributeError)
    case Some(f) =>
      if f.Plain? && f.hidden then Err(AttributeError)
      else
        match VisibleIndex(l.fields, name)
        case None => Err(AttributeError)
        case Some(k) => if k < |vals| then Ok(vals[k := v]) else Err(AttributeError)
  }

  /** Assignment fails for hidden and undeclared names; otherwise the named
      attribute takes the value and every other attribute keeps its own. */
  lemma SetAttrSpec(l: Layout, vals: seq<Value>, name: string, v: Value)
    requires |vals| == |VisibleNames(l.fields)|
    ensures Declared(l.fields, name).None? ==> SetAttr(l, vals, name, v) == Err(AttributeError)
    ensures Declared(l.fields, name).Some? && Declared(l.fields, name).value.Plain? && Declared(l.fields, name).value.hidden ==>
              SetAttr(l, vals, name, v) == Err(AttributeError)
    ensures SetAttr(l, vals, name, v).Ok? ==>
              && name in VisibleNames(l.fields)
              && GetAttr(l, SetAttr(l, vals, name, v).value, name) == Ok(v)
              && forall other :: other in VisibleNames(l.fields) && VisibleIndex(l.fields, other) != VisibleIndex(l.fields, name) ==>
                   GetAttr(l, SetAttr(l, vals, name, v).value, other) == GetAttr(l, vals, other)
  {
  }

  /** `Struct(*args, **kwargs)`: positional arguments fill the visible
      fields in order; too many positional arguments, a field given both
      ways, or a visible field left without a value is a `TypeError`. The
      record holds the value bound to each visible name. */
  function Construct(l: Layout, args: seq<Value>, kwargs: map<string, Value>): (r: Result<seq<Value>>)
  {
    var names := VisibleNames(l.fields);
    if |args| > |names| then Err(TypeError)
    else
      var all :- Bind(names[..|args|], args, kwargs);
      Collect(names, all)
  }

  /** The value bound to each name; a name left unbound is a `TypeError`. */
  function Collect(names: seq<string>, all: map<string, Value>): (r: Result<seq<Value>>)
    ensures r.Ok? <==> forall k :: 0 <= k < |names| ==> names[k] in all
    ensures r.Ok? ==> |r.value| == |names| && forall k :: 0 <= k < |names| ==> r.value[k] == all[names[k]]
  {
    if names == [] then Ok([])
    else if names[0] !in all then Err(TypeError)
    else
      var rest :- Collect(names[1..], all);
      Ok([all[names[0]]] + rest)
  }

  /** The loop binding positional arguments: a name already bound, by a
      keyword or by an earlier position, is a `TypeError`. */
  function Bind(names: seq<string>, args: seq<Value>, kwargs: map<string, Value>): (r: Result<map<string, Value>>)
    requires |names| == |args|
  {
    if names == [] then Ok(kwargs)
    else if names[0] in kwargs then Err(TypeError)
    else Bind(names[1..], args[1..], kwargs[names[0] := args[0]])
  }

  predicate Distinct(names: seq<string>)
  {
    forall i, j :: 0 <= i < j < |names| ==> names[i] != names[j]
  }

  lemma {:induction false} BindSpec(names: seq<string>, args: seq<Value>, kwargs: map<string, Value>)
    requires |names| == |args| && Distinct(names)
    ensures Bind(names, args, kwargs).Ok? <==> forall k :: 0 <= k < |names| ==> names[k] !in kwargs
    ensures Bind(names, args, kwargs).Ok? ==>
              && Bind(names, args, kwargs).value.Keys == kwargs.Keys + (set k | 0 <= k < |names| :: names[k])
              && (forall k :: 0 <= k < |names| ==> Bind(names, args, kwargs).value[names[k]] == args[k])
              && (forall n :: n in kwargs ==> Bind(names, args, kwargs).value[n] == kwargs[n])
    decreases |names|
  {
    if names != [] {
      var kw := kwargs[names[0] := args[0]];
      BindSpec(names[1..], args[1..], kw);
      if names[0] !in kwargs {
        assert (forall k :: 0 <= k < |names| ==> names[k] !in kwargs) <==>
               (forall k :: 0 <= k < |names[1..]| ==> names[1..][k] !in kw);
        if Bind(names, args, kwargs).Ok? {
          var m := Bind(names, args, kwargs).value;
          assert (set k | 0 <= k < |names| :: names[k]) == {names[0]} + (set k | 0 <= k < |names[1..]| :: names[1..][k]);
          forall k | 0 <= k < |names|
            ensures m[names[k]] == args[k]
          {
            if k > 0 {
              assert names[k] == names[1..][k - 1];
            }
          }
        }
      }
    }
  }

  /** With distinct field names, construction succeeds exactly when there
      are no more positional arguments than visible fields, no positional
      argument is also given by keyword, and every visible field is given
      one way or the other; the field then holds its positional argument if
      it has one and its keyword argument otherwise. */
  lemma ConstructSpec(l: Layout, args: seq<Value>, kwargs: map<string, Value>)
    requires Distinct(VisibleNames(l.fields))
    ensures var names := VisibleNames(l.fields);
            Construct(l, args, kwargs).Ok? <==>
              && |args| <= |names|
              && (forall k :: 0 <= k < |args| ==> names[k] !in kwargs)
              && (forall k :: |args| <= k < |names| ==> names[k] in kwargs)
    ensures var names := VisibleNames(l.fields);
            Construct(l, args, kwargs).Ok? ==>
              && |Construct(l, args, kwargs).value| == |names|
              && (forall k :: 0 <= k < |args| ==> Construct(l, args, kwargs).value[k] == args[k])
              && (forall k :: |args| <= k < |names| ==> Construct(l, args, kwargs).value[k] == kwargs[names[k]])
  {
    var names := VisibleNames(l.fields);
    if |args| <= |names| {
      var pre := names[..|args|];
      BindSpec(pre, args, kwargs);
      if Bind(pre, args, kwargs).Ok? {
        var all := Bind(pre, args, kwargs).value;
        forall k | |args| <= k < |names|
          ensures names[k] in all <==> names[k] in kwargs
        {
        }
        forall k | 0 <= k < |args|
          ensures names[k] in all
        {
          assert names[k] == pre[k];
        }
      }
    }
  }

  // ---------------------------------------------------------------------
  // Decoding

  /** `UnpackContext` (and `SubAtomsUnpackContext`): every value decoded so
      far by field name, the values of the fields that are not hidden, and
      the declared size of the atom being decoded when there is one. */
  datatype Ctx = Ctx(values: map<string, Value>, init: map<string, Value>, atom: Option<nat>)

  function NewCtx(atom: Option<nat>): Ctx
  {
    Ctx(map[], map[], atom)
  }

  predicate Hidden(f: Field)
  {
    f.Plain? && f.hidden
  }

  /** Recording a decoded value in the context. */
  function Record(ctx: Ctx, f: Field, v: Value): Ctx
  {
    ctx.(values := ctx.values[f.name := v], init := if Hidden(f) then ctx.init else ctx.init[f.name := v])
  }

  /** `ctx[name]`. */
  function Lookup(ctx: Ctx, name: string): Result<Value>
  {
    if name in ctx.values then Ok(ctx.values[name]) else Err(KeyError)
  }

  function AsInt(v: Value): Result<int>
  {
    if v.Num? then Ok(v.n) else Err(TypeError)
  }

  /** The number of items `range(times)` yields: none for a negative count. */
  function EvalCount(c: Count, ctx: Ctx): Result<nat>
  {
    match c
    case Times(n) => Ok(n)
    case CountOf(name) =>
      var v :- Lookup(ctx, name);
      var n :- AsInt(v);
      Ok(if n < 0 then 0 else n)
    case CountIfZero(count, flag) =>
      var f :- Lookup(ctx, flag);
      if f == Num(0) then
        var v :- Lookup(ctx, count);
        var n :- AsInt(v);
        Ok(if n < 0 then 0 else n)
      else Ok(0)
  }

  /** The length a string field asks for. Reading from a context with no
      atom is an `AttributeError` (`ctx.atom` is missing). */
  function EvalLength(len: Length, ctx: Ctx): Result<int>
  {
    match len
    case Literal(n) => Ok(n)
    case LengthOf(name, less) =>
      var v :- Lookup(ctx, name);
      var n :- AsInt(v);
      Ok(n - less)
    case AtomSizeLess(less) =>
      if ctx.atom.None? then Err(AttributeError) else Ok(ctx.atom.value - less)
  }

  /** A one-item format gives its value, any other format the tuple. */
  function FromItems(vs: seq<int>): Value
  {
    if |vs| == 1 then Num(vs[0]) else Nums(vs)
  }

  /** A `struct` field: too few bytes is an `UnpackError`. */
  function DecodeCodes(codes: seq<Code>, s: Stream): (r: Result<(Value, Stream)>)
    ensures r.Err? <==> s.Available() < FormatSize(codes)
    ensures r.Err? ==> r.error == UnpackError
  {
    var (d, s1) := s.Read(FormatSize(codes));
    if |d| != FormatSize(codes) then Err(UnpackError)
    else Ok((FromItems(UnpackCodes(codes, d)), s1))
  }

  /** `Struct.unpack_from_stream`: the fields in order, each recorded in the
      context, then the record built from the fields that are not hidden. */
  function DecodeRecord(l: Layout, s: Stream, atom: Option<nat>): Result<(Value, Stream)>
    decreases l, 0
  {
    var (ctx, s1) :- DecodeFields(l.fields, s, NewCtx(atom));
    var vals :- Construct(l, [], ctx.init);
    Ok((Rec(l.name, vals), s1))
  }

  function DecodeFields(fs: seq<Field>, s: Stream, ctx: Ctx): Result<(Ctx, Stream)>
    decreases fs
  {
    if fs == [] then Ok((ctx, s))
    else
      var (v, s1) :- DecodeField(fs[0], s, ctx);
      DecodeFields(fs[1..], s1, Record(ctx, fs[0], v))
  }

  function DecodeField(f: Field, s: Stream, ctx: Ctx): Result<(Value, Stream)>
    decreases f
  {
    match f
    case Plain(_, _, _, codes) => DecodeCodes(codes, s)
    case Nested(_, l) => DecodeRecord(l, s, None)
    case List(_, e, times) =>
      var n :- EvalCount(times, ctx);
      var (xs, s1) :- DecodeItems(e, n, s);
      Ok((Items(xs), s1))
    case Str(_, len) =>
      var n :- EvalLength(len, ctx);
      if n < 0 then Err(UnpackError)
      else
        var (d, s1) := s.Read(n);
        if |d| != n then Err(UnpackError) else Ok((Blob(d), s1))
    case SubAtoms(_, reg) => DecodeSubAtoms(reg, s)
  }

  function DecodeElem(e: Elem, s: Stream): Result<(Value, Stream)>
    decreases e, 0
  {
    match e
    case Codes(codes) => DecodeCodes(codes, s)
    case Sub(l) => DecodeRecord(l, s, None)
  }

  function DecodeItems(e: Elem, n: nat, s: Stream): Result<(seq<Value>, Stream)>
    decreases e, n
  {
    if n == 0 then Ok(([], s))
    else
      var (x, s1) :- DecodeElem(e, s);
      var (xs, s2) :- DecodeItems(e, n - 1, s1);
      Ok(([x] + xs, s2))
  }

  // ---------------------------------------------------------------------
  // Sub-atoms

  /** The registry as a dictionary: the last entry for a tag wins. */
  function LookupIndex(reg: seq<Entry>, tag: Tag): (r: Option<nat>)
    ensures r.Some? ==> r.value < |reg| && reg[r.value].tag == tag
    ensures r.None? <==> forall k :: 0 <= k < |reg| ==> reg[k].tag != tag
    ensures r.Some? ==> forall k :: r.value < k < |reg| ==> reg[k].tag != tag
  {
    if reg == [] then None
    else if reg[|reg| - 1].tag == tag then Some(|reg| - 1)
    else LookupIndex(reg[..|reg| - 1], tag)
  }

  /** The reverse table, from record kind to tag: the last entry wins. */
  function ReverseIndex(reg: seq<Entry>, kind: string): (r: Option<nat>)
    ensures r.Some? ==> r.value < |reg| && reg[r.value].layout.name == kind
    ensures r.None? <==> forall k :: 0 <= k < |reg| ==> reg[k].layout.name != kind
  {
    if reg == [] then None
    else if reg[|reg| - 1].layout.name == kind then Some(|reg| - 1)
    else ReverseIndex(reg[..|reg| - 1], kind)
  }

  function Tags(reg: seq<Entry>): set<Tag>
  {
    set k | 0 <= k < |reg| :: reg[k].tag
  }

  /** Every child whose tag is registered was read in full. */
  predicate Loaded(reg: seq<Entry>, cs: seq<Child>)
  {
    forall i :: 0 <= i < |cs| && LookupIndex(reg, cs[i].tag).Some? ==> cs[i].payload.Some?
  }

  lemma {:induction false} DescribesLoaded(data: seq<Byte>, at: nat, cs: seq<Child>, reg: seq<Entry>)
    requires Describes(data, at, cs, Only(Tags(reg)))
    ensures Loaded(reg, cs)
    decreases |cs|
  {
    if cs != [] {
      DescribesLoaded(data, at + cs[0].size, cs[1..], reg);
      forall i | 0 <= i < |cs| && LookupIndex(reg, cs[i].tag).Some?
        ensures cs[i].payload.Some?
      {
        if i > 0 {
          assert cs[i] == cs[1..][i - 1];
        } else {
          var k := LookupIndex(reg, cs[0].tag).value;
          assert reg[k].tag in Tags(reg);
        }
      }
    }
  }

  /** `SubAtomsField.unpack_from_stream`: iterate over the atoms from the
      current position to the end of the data, decoding each registered one
      from its payload with the atom's declared size in the context and
      skipping the others. An error decoding a child comes before whatever
      ended the iteration after it. */
  function DecodeSubAtoms(reg: seq<Entry>, s: Stream): Result<(Value, Stream)>
    decreases reg, 1
  {
    var root := MakeRoot(s);
    var w := IterAtoms(root, s, Only(Tags(reg)));
    ChildLoopDescribes(root, s, Only(Tags(reg)));
    DescribesLoaded(s.data, s.pos, w.children, reg);
    var recs :- DecodeChildren(reg, w.children);
    if w.stop.Some? then Err(w.stop.value) else Ok((Items(recs), w.stream))
  }

  function DecodeChildren(reg: seq<Entry>, cs: seq<Child>): Result<seq<Value>>
    requires Loaded(reg, cs)
    decreases reg, 0, |cs|
  {
    if cs == [] then Ok([])
    else
      match LookupIndex(reg, cs[0].tag)
      case None => DecodeChildren(reg, cs[1..])
      case Some(k) =>
        var (v, _) :- DecodeRecord(reg[k].layout, Stream(cs[0].payload.value, 0), Some(cs[0].size));
        var rest :- DecodeChildren(reg, cs[1..]);
        Ok([v] + rest)
  }

  /** The children a sub-atoms field decodes: those whose tag is
      registered, in the order they were met. */
  function Registered(reg: seq<Entry>, cs: seq<Child>): (r: seq<Child>)
    requires Loaded(reg, cs)
    ensures |r| <= |cs|
    ensures forall i :: 0 <= i < |r| ==> LookupIndex(reg, r[i].tag).Some? && r[i].payload.Some?
  {
    if cs == [] then []
    else
      assert Loaded(reg, cs[1..]) by {
        forall i | 0 <= i < |cs[1..]| && LookupIndex(reg, cs[1..][i].tag).Some?
          ensures cs[1..][i].payload.Some?
        {
          assert cs[1..][i] == cs[i + 1];
        }
      }
      (if LookupIndex(reg, cs[0].tag).Some? then [cs[0]] else []) + Registered(reg, cs[1..])
  }

  /** One registered child decoded from its payload, with its declared size
      as the atom size. */
  function ChildRecord(reg: seq<Entry>, c: Child): Result<Value>
    requires LookupIndex(reg, c.tag).Some? && c.payload.Some?
  {
    var d := DecodeRecord(reg[LookupIndex(reg, c.tag).value].layout, Stream(c.payload.value, 0), Some(c.size));
    if d.Err? then Err(d.error) else Ok(d.value.0)
  }

  /** `r` is the outcome of decoding the children `ks` one after another:
      all their records, in order, or the first error among them. */
  predicate DecodedInOrder(reg: seq<Entry>, ks: seq<Child>, r: Result<seq<Value>>)
    requires forall i :: 0 <= i < |ks| ==> LookupIndex(reg, ks[i].tag).Some? && ks[i].payload.Some?
  {
    && (r.Ok? <==> forall i :: 0 <= i < |ks| ==> ChildRecord(reg, ks[i]).Ok?)
    && (r.Ok? ==> |r.value| == |ks| && forall i :: 0 <= i < |ks| ==> r.value[i] == ChildRecord(reg, ks[i]).value)
    && (r.Err? ==>
          exists i :: 0 <= i < |ks| && ChildRecord(reg, ks[i]) == Err(r.error)
                      && forall j :: 0 <= j < i ==> ChildRecord(reg, ks[j]).Ok?)
  }

  /** Decoding the children: exactly the registered ones, in order, each
      decoded by its registered layout; the first error among them is the
      error. */
  lemma {:induction false} DecodeChildrenSpec(reg: seq<Entry>, cs: seq<Child>)
    requires Loaded(reg, cs)
    ensures DecodedInOrder(reg, Registered(reg, cs), DecodeChildren(reg, cs))
    decreases |cs|
  {
    if cs != [] {
      var rest := Registered(reg, cs[1..]);
      DecodeChildrenSpec(reg, cs[1..]);
      if LookupIndex(reg, cs[0].tag).Some? {
        assert Registered(reg, cs) == [cs[0]] + rest;
        DecodedInOrderCons(reg, cs[0], rest, DecodeChildren(reg, cs[1..]));
      } else {
        assert Registered(reg, cs) == rest;
      }
    }
  }

  /** Decoding one more registered child in front of others. */
  lemma DecodedInOrderCons(reg: seq<Entry>, c: Child, ks: seq<Child>, r: Result<seq<Value>>)
    requires LookupIndex(reg, c.tag).Some? && c.payload.Some?
    requires forall i :: 0 <= i < |ks| ==> LookupIndex(reg, ks[i].tag).Some? && ks[i].payload.Some?
    requires DecodedInOrder(reg, ks, r)
    ensures DecodedInOrder(reg, [c] + ks, if ChildRecord(reg, c).Err? then Err(ChildRecord(reg, c).error)
                                          else if r.Err? then Err(r.error) else Ok([ChildRecord(reg, c).value] + r.value))
  {
    if ChildRecord(reg, c).Err? {
      FirstFails(reg, c, ks);
    } else if r.Err? {
      LaterFails(reg, c, ks, r);
    } else {
      AllDecode(reg, c, ks, r);
    }
  }

  lemma FirstFails(reg: seq<Entry>, c: Child, ks: seq<Child>)
    requires LookupIndex(reg, c.tag).Some? && c.payload.Some? && ChildRecord(reg, c).Err?
    requires forall i :: 0 <= i < |ks| ==> LookupIndex(reg, ks[i].tag).Some? && ks[i].payload.Some?
    ensures DecodedInOrder(reg, [c] + ks, Err(ChildRecord(reg, c).error))
  {
    assert ([c] + ks)[0] == c;
  }

  lemma LaterFails(reg: seq<Entry>, c: Child, ks: seq<Child>, r: Result<seq<Value>>)
    requires LookupIndex(reg, c.tag).Some? && c.payload.Some? && ChildRecord(reg, c).Ok?
    requires forall i :: 0 <= i < |ks| ==> LookupIndex(reg, ks[i].tag).Some? && ks[i].payload.Some?
    requires DecodedInOrder(reg, ks, r) && r.Err?
    ensures DecodedInOrder(reg, [c] + ks, Err(r.error))
  {
    var ks' := [c] + ks;
    var i :| 0 <= i < |ks| && ChildRecord(reg, ks[i]) == Err(r.error) && forall j :: 0 <= j < i ==> ChildRecord(reg, ks[j]).Ok?;
    assert ks'[i + 1] == ks[i];
    assert forall j :: 0 < j <= i ==> ks'[j] == ks[j - 1];
  }

  lemma AllDecode(reg: seq<Entry>, c: Child, ks: seq<Child>, r: Result<seq<Value>>)
    requires LookupIndex(reg, c.tag).Some? && c.payload.Some? && ChildRecord(reg, c).Ok?
    requires forall i :: 0 <= i < |ks| ==> LookupIndex(reg, ks[i].tag).Some? && ks[i].payload.Some?
    requires DecodedInOrder(reg, ks, r) && r.Ok?
    ensures DecodedInOrder(reg, [c] + ks, Ok([ChildRecord(reg, c).value] + r.value))
  {
    var ks' := [c] + ks;
    assert ks'[0] == c;
    assert forall i :: 0 < i < |ks'| ==> ks'[i] == ks[i - 1];
  }

  /** `SubAtomsField.unpack_from_stream` over the children the iteration
      yields: it succeeds exactly when the iteration met no error and every
      registered child decodes, and then the items are the registered
      children's records, in order, with the unregistered ones skipped. */
  lemma DecodeSubAtomsSpec(reg: seq<Entry>, s: Stream)
    ensures var w := IterAtoms(MakeRoot(s), s, Only(Tags(reg)));
            && Loaded(reg, w.children)
            && var ks := Registered(reg, w.children);
               && (w.stop.Some? ==> DecodeSubAtoms(reg, s).Err?)
               && (DecodeSubAtoms(reg, s).Ok? <==>
                     w.stop.None? && forall i :: 0 <= i < |ks| ==> ChildRecord(reg, ks[i]).Ok?)
               && (DecodeSubAtoms(reg, s).Ok? ==>
                     && DecodeSubAtoms(reg, s).value.1 == w.stream
                     && DecodeSubAtoms(reg, s).value.0.Items?
                     && |DecodeSubAtoms(reg, s).value.0.items| == |ks|
                     && forall i :: 0 <= i < |ks| ==> DecodeSubAtoms(reg, s).value.0.items[i] == ChildRecord(reg, ks[i]).value)
  {
    var root := MakeRoot(s);
    var w := IterAtoms(root, s, Only(Tags(reg)));
    ChildLoopDescribes(root, s, Only(Tags(reg)));
    DescribesLoaded(s.data, s.pos, w.children, reg);
    DecodeChildrenSpec(reg, w.children);
  }

  // ---------------------------------------------------------------------
  // Encoding

  /** `Struct.pack`: each field in order, named fields taking their
      attribute value and unnamed ones `None`. */
  function EncodeRecord(l: Layout, vals: seq<Value>): Result<seq<Byte>>
    decreases l, 0
  {
    EncodeFields(l, l.fields, vals)
  }

  /** The value encoding takes for a field: its attribute, or `None`. */
  function Given(l: Layout, f: Field, vals: seq<Value>): Result<Option<Value>>
  {
    if f.name == "" then Ok(None) else var x :- GetAttr(l, vals, f.name); Ok(Some(x))
  }

  function EncodeFields(l: Layout, fs: seq<Field>, vals: seq<Value>): Result<seq<Byte>>
    decreases fs
  {
    if fs == [] then Ok([])
    else
      var v :- Given(l, fs[0], vals);
      var b :- EncodeField(fs[0], v);
      var rest :- EncodeFields(l, fs[1..], vals);
      Ok(b + rest)
  }

  /** The tuple `struct.pack` receives: `None` packs no values, a tuple its
      items and anything else a single value. */
  function ToItems(v: Option<Value>): Result<seq<int>>
  {
    match v
    case None => Ok([])
    case Some(Num(n)) => Ok([n])
    case Some(Nums(ns)) => Ok(ns)
    case Some(_) => Err(PackError)
  }

  function EncodeField(f: Field, v: Option<Value>): Result<seq<Byte>>
    decreases f
  {
    match f
    case Plain(_, _, _, codes) =>
      var vs :- ToItems(v);
      PackCodes(codes, vs)
    case Nested(_, l) => EncodeNested(l, v)
    case List(_, e, _) =>
      if v.Some? && v.value.Items? then EncodeItems(e, v.value.items) else Err(TypeError)
    case Str(_, _) =>
      if v.Some? && v.value.Blob? then Ok(v.value.bytes) else Err(TypeError)
    case SubAtoms(_, reg) =>
      if v.Some? && v.value.Items? then EncodeSubAtoms(reg, v.value.items) else Err(TypeError)
  }

  /** A field wrapping a record asserts the value is a record of that type. */
  function EncodeNested(l: Layout, v: Option<Value>): Result<seq<Byte>>
    decreases l, 1
  {
    if v.Some? && v.value.Rec? && v.value.kind == l.name then EncodeRecord(l, v.value.fields)
    else Err(AssertionError)
  }

  function EncodeElem(e: Elem, x: Value): Result<seq<Byte>>
    decreases e, 0
  {
    match e
    case Codes(codes) =>
      var vs :- ToItems(Some(x));
      PackCodes(codes, vs)
    case Sub(l) => EncodeNested(l, Some(x))
  }

  function EncodeItems(e: Elem, xs: seq<Value>): Result<seq<Byte>>
    decreases e, |xs|
  {
    if xs == [] then Ok([])
    else
      var b :- EncodeElem(e, xs[0]);
      var rest :- EncodeItems(e, xs[1..]);
      Ok(b + rest)
  }

  /** `SubAtomsField.pack_into_stream`: each record must be of a registered
      kind; it is packed, and a writer is opened for it with the packed
      length as its declared size. The writer refuses a size below 8 and
      `struct.pack` one that does not fit in 32 bits; otherwise the call
      `writer.write_data`, which the writer does not have, fails. */
  function EncodeSubAtoms(reg: seq<Entry>, xs: seq<Value>): Result<seq<Byte>>
    decreases reg
  {
    if xs == [] then Ok([])
    else if !xs[0].Rec? || ReverseIndex(reg, xs[0].kind).None? then Err(ValueError)
    else
      var k := ReverseIndex(reg, xs[0].kind).value;
      var data :- EncodeRecord(reg[k].layout, xs[0].fields);
      if |data| < 8 then Err(FormatError)
      else if |data| >= U32_LIMIT then Err(StructError)
      else Err(AttributeError)
  }

  /** Encoding a sub-atoms field succeeds only for an empty list: every
      record in it ends in an error. */
  lemma EncodeSubAtomsFails(reg: seq<Entry>, xs: seq<Value>)
    ensures EncodeSubAtoms(reg, xs).Ok? <==> xs == []
    ensures xs != [] && (!xs[0].Rec? || ReverseIndex(reg, xs[0].kind).None?) ==> EncodeSubAtoms(reg, xs) == Err(ValueError)
  {
  }

  // ---------------------------------------------------------------------
  // Round trip

  /** A value a `struct` format packs and unpacks back to itself: one
      in-range integer for a one-item format, a tuple of in-range integers
      of the right length otherwise. */
  predicate CodesTrip(codes: seq<Code>, x: Value)
  {
    ToItems(Some(x)).Ok? && AllFit(codes, ToItems(Some(x)).value) && FromItems(ToItems(Some(x)).value) == x
  }

  /** The values of a record's visible fields round-trip: names are
      distinct, every field's value, including the hidden ones its getter
      derives, is one the field encodes and decodes back to itself in the
      context the earlier fields leave, and unnamed fields are padding.
      `atom` is the declared size of the atom the record is decoded from. */
  predicate RecordTrips(l: Layout, vals: seq<Value>, atom: Option<nat>)
    decreases l, 0
  {
    && |vals| == |VisibleNames(l.fields)|
    && Distinct(VisibleNames(l.fields))
    && FieldsTrip(l, l.fields, vals, NewCtx(atom))
  }

  predicate FieldsTrip(l: Layout, fs: seq<Field>, vals: seq<Value>, ctx: Ctx)
    decreases fs
  {
    if fs == [] then true
    else if fs[0].name == "" then
      fs[0].Plain? && Arity(fs[0].codes) == 0 && FieldsTrip(l, fs[1..], vals, Record(ctx, fs[0], Nums([])))
    else
      && GetAttr(l, vals, fs[0].name).Ok?
      && FieldTrips(fs[0], GetAttr(l, vals, fs[0].name).value, ctx)
      && FieldsTrip(l, fs[1..], vals, Record(ctx, fs[0], GetAttr(l, vals, fs[0].name).value))
  }

  predicate FieldTrips(f: Field, x: Value, ctx: Ctx)
    decreases f
  {
    match f
    case Plain(_, _, _, codes) => CodesTrip(codes, x)
    case Nested(_, l) => x.Rec? && x.kind == l.name && RecordTrips(l, x.fields, None)
    case List(_, e, times) => x.Items? && EvalCount(times, ctx) == Ok(|x.items|) && ItemsTrip(e, x.items)
    case Str(_, len) => x.Blob? && EvalLength(len, ctx) == Ok(|x.bytes|)
    case SubAtoms(_, _) => false
  }

  predicate ElemTrips(e: Elem, x: Value)
    decreases e, 0
  {
    match e
    case Codes(codes) => CodesTrip(codes, x)
    case Sub(l) => x.Rec? && x.kind == l.name && RecordTrips(l, x.fields, None)
  }

  predicate ItemsTrip(e: Elem, xs: seq<Value>)
    decreases e, 1, |xs|
  {
    xs == [] || (ElemTrips(e, xs[0]) && ItemsTrip(e, xs[1..]))
  }

  /** One step of `FieldsTrip` over a named field with value `x`. */
  lemma TripNamed(l: Layout, fs: seq<Field>, vals: seq<Value>, ctx: Ctx, x: Value)
    requires fs != [] && fs[0].name != "" && GetAttr(l, vals, fs[0].name) == Ok(x)
    ensures FieldsTrip(l, fs, vals, ctx) == (FieldTrips(fs[0], x, ctx) && FieldsTrip(l, fs[1..], vals, Record(ctx, fs[0], x)))
  {
  }

  /** One step of `FieldsTrip` over an unnamed field. */
  lemma TripUnnamed(l: Layout, fs: seq<Field>, vals: seq<Value>, ctx: Ctx)
    requires fs != [] && fs[0].name == ""
    ensures FieldsTrip(l, fs, vals, ctx) ==
              (fs[0].Plain? && Arity(fs[0].codes) == 0 && FieldsTrip(l, fs[1..], vals, Record(ctx, fs[0], Nums([]))))
  {
  }

  /** The context decoding leaves after the fields, when it reads back what
      encoding wrote. */
  function TripCtx(l: Layout, fs: seq<Field>, vals: seq<Value>, ctx: Ctx): Ctx
    requires FieldsTrip(l, fs, vals, ctx)
    decreases fs
  {
    if fs == [] then ctx
    else if fs[0].name == "" then TripCtx(l, fs[1..], vals, Record(ctx, fs[0], Nums([])))
    else TripCtx(l, fs[1..], vals, Record(ctx, fs[0], GetAttr(l, vals, fs[0].name).value))
  }

  /** The bytes at `pos` of `d` are `b`. */
  predicate At(d: seq<Byte>, pos: nat, b: seq<Byte>)
  {
    pos + |b| <= |d| && d[pos..pos + |b|] == b
  }

  lemma AtSplit(d: seq<Byte>, pos: nat, b1: seq<Byte>, b2: seq<Byte>)
    requires At(d, pos, b1 + b2)
    ensures At(d, pos, b1) && At(d, pos + |b1|, b2)
  {
    assert d[pos..pos + |b1|] == (b1 + b2)[..|b1|];
    assert d[pos + |b1|..pos + |b1| + |b2|] == (b1 + b2)[|b1|..];
  }

  lemma CodesRoundTrip(codes: seq<Code>, x: Value, d: seq<Byte>, pos: nat)
    requires CodesTrip(codes, x)
    ensures EncodeElem(Codes(codes), x).Ok?
    ensures At(d, pos, EncodeElem(Codes(codes), x).value) ==>
              DecodeCodes(codes, Stream(d, pos)) == Ok((x, Stream(d, pos + |EncodeElem(Codes(codes), x).value|)))
  {
    PackCodesRoundTrip(codes, ToItems(Some(x)).value);
  }

  /** The record round trip: a record whose values round-trip encodes, and
      decoding its bytes, wherever they sit in the input, gives the record
      back and stops right after them. */
  lemma {:induction false} RecordRoundTrip(l: Layout, vals: seq<Value>, atom: Option<nat>, d: seq<Byte>, pos: nat)
    requires RecordTrips(l, vals, atom)
    ensures EncodeRecord(l, vals).Ok?
    ensures At(d, pos, EncodeRecord(l, vals).value) ==>
              DecodeRecord(l, Stream(d, pos), atom) == Ok((Rec(l.name, vals), Stream(d, pos + |EncodeRecord(l, vals).value|)))
    decreases l, 0
  {
    FieldsRoundTrip(l, l.fields, vals, NewCtx(atom), d, pos);
    var final := TripCtx(l, l.fields, vals, NewCtx(atom));
    FinalInit(l, vals, atom);
    ConstructAll(l, final.init, vals);
  }

  /** After decoding an encoded record, every visible field is bound to its value. */
  lemma FinalInit(l: Layout, vals: seq<Value>, atom: Option<nat>)
    requires RecordTrips(l, vals, atom)
    ensures var final := TripCtx(l, l.fields, vals, NewCtx(atom));
            forall k :: 0 <= k < |vals| ==>
              VisibleNames(l.fields)[k] in final.init && final.init[VisibleNames(l.fields)[k]] == vals[k]
  {
    var final := TripCtx(l, l.fields, vals, NewCtx(atom));
    TripInit(l, l.fields, vals, NewCtx(atom));
    var names := VisibleNames(l.fields);
    forall k | 0 <= k < |names|
      ensures names[k] in final.init && final.init[names[k]] == vals[k]
    {
      assert names[k] in names;
      var r := VisibleIndex(l.fields, names[k]).value;
      assert names[r] == names[k];
    }
  }

  /** Building a record from keyword arguments alone that give every visible
      field its value. */
  lemma ConstructAll(l: Layout, kwargs: map<string, Value>, vals: seq<Value>)
    requires |vals| == |VisibleNames(l.fields)|
    requires forall k :: 0 <= k < |vals| ==> VisibleNames(l.fields)[k] in kwargs && kwargs[VisibleNames(l.fields)[k]] == vals[k]
    ensures Construct(l, [], kwargs) == Ok(vals)
  {
    var names := VisibleNames(l.fields);
    assert names[..0] == [];
    assert Bind(names[..0], [], kwargs) == Ok(kwargs);
    assert Collect(names, kwargs).value == vals;
  }

  lemma {:induction false} FieldsRoundTrip(l: Layout, fs: seq<Field>, vals: seq<Value>, ctx: Ctx, d: seq<Byte>, pos: nat)
    requires FieldsTrip(l, fs, vals, ctx)
    ensures EncodeFields(l, fs, vals).Ok?
    ensures At(d, pos, EncodeFields(l, fs, vals).value) ==>
              DecodeFields(fs, Stream(d, pos), ctx) == Ok((TripCtx(l, fs, vals, ctx), Stream(d, pos + |EncodeFields(l, fs, vals).value|)))
    decreases fs, 2
  {
    FieldsEncode(l, fs, vals, ctx);
    if At(d, pos, EncodeFields(l, fs, vals).value) {
      FieldsDecode(l, fs, vals, ctx, d, pos, EncodeFields(l, fs, vals).value);
    }
  }

  /** The value decoding records for a field that round-trips. */
  function Taken(l: Layout, f: Field, vals: seq<Value>): Value
    requires f.name != "" ==> GetAttr(l, vals, f.name).Ok?
  {
    if f.name == "" then Nums([]) else GetAttr(l, vals, f.name).value
  }

  lemma {:induction false} FieldsEncode(l: Layout, fs: seq<Field>, vals: seq<Value>, ctx: Ctx)
    requires FieldsTrip(l, fs, vals, ctx)
    ensures EncodeFields(l, fs, vals).Ok?
    decreases fs, 1
  {
    if fs != [] {
      var x := Taken(l, fs[0], vals);
      OneFieldRoundTrip(fs[0], Given(l, fs[0], vals).value, x, ctx, [], 0);
      FieldsEncode(l, fs[1..], vals, Record(ctx, fs[0], x));
      EncodeFieldsCons(l, fs, vals);
    }
  }

  lemma {:induction false} FieldsDecode(l: Layout, fs: seq<Field>, vals: seq<Value>, ctx: Ctx, d: seq<Byte>, pos: nat, bs: seq<Byte>)
    requires FieldsTrip(l, fs, vals, ctx) && EncodeFields(l, fs, vals) == Ok(bs) && At(d, pos, bs)
    ensures DecodeFields(fs, Stream(d, pos), ctx) == Ok((TripCtx(l, fs, vals, ctx), Stream(d, pos + |bs|)))
    decreases fs, 1
  {
    if fs != [] {
      var x := Taken(l, fs[0], vals);
      var b, rest := EncodeFieldsUncons(l, fs, vals, bs);
      AtSplit(d, pos, b, rest);
      FieldsDecode(l, fs[1..], vals, Record(ctx, fs[0], x), d, pos + |b|, rest);
      assert TripCtx(l, fs, vals, ctx) == TripCtx(l, fs[1..], vals, Record(ctx, fs[0], x));
      assert pos + |b| + |rest| == pos + |bs|;
      FieldsDecodeHead(l, fs, vals, ctx, d, pos, b, bs);
    }
  }

  lemma FieldsDecodeHead(l: Layout, fs: seq<Field>, vals: seq<Value>, ctx: Ctx, d: seq<Byte>, pos: nat, b: seq<Byte>, bs: seq<Byte>)
    requires fs != [] && FieldsTrip(l, fs, vals, ctx)
    requires Given(l, fs[0], vals).Ok? && EncodeField(fs[0], Given(l, fs[0], vals).value) == Ok(b)
    requires At(d, pos, b) && |b| <= |bs|
    requires DecodeFields(fs[1..], Stream(d, pos + |b|), Record(ctx, fs[0], Taken(l, fs[0], vals))) ==
               Ok((TripCtx(l, fs, vals, ctx), Stream(d, pos + |bs|)))
    ensures DecodeFields(fs, Stream(d, pos), ctx) == Ok((TripCtx(l, fs, vals, ctx), Stream(d, pos + |bs|)))
    decreases fs, 0
  {
    OneFieldRoundTrip(fs[0], Given(l, fs[0], vals).value, Taken(l, fs[0], vals), ctx, d, pos);
    DecodeFieldsCons(fs, Stream(d, pos), ctx, Taken(l, fs[0], vals), Stream(d, pos + |b|));
  }

  lemma EncodeFieldsCons(l: Layout, fs: seq<Field>, vals: seq<Value>)
    requires fs != [] && Given(l, fs[0], vals).Ok?
    requires EncodeField(fs[0], Given(l, fs[0], vals).value).Ok? && EncodeFields(l, fs[1..], vals).Ok?
    ensures EncodeFields(l, fs, vals) == Ok(EncodeField(fs[0], Given(l, fs[0], vals).value).value + EncodeFields(l, fs[1..], vals).value)
  {
  }

  /** The bytes of a record's fields: those of the first field, then the rest. */
  lemma EncodeFieldsUncons(l: Layout, fs: seq<Field>, vals: seq<Value>, bs: seq<Byte>) returns (b: seq<Byte>, rest: seq<Byte>)
    requires fs != [] && EncodeFields(l, fs, vals) == Ok(bs)
    ensures Given(l, fs[0], vals).Ok? && EncodeField(fs[0], Given(l, fs[0], vals).value) == Ok(b)
    ensures EncodeFields(l, fs[1..], vals) == Ok(rest) && bs == b + rest
  {
    b := EncodeField(fs[0], Given(l, fs[0], vals).value).value;
    rest := EncodeFields(l, fs[1..], vals).value;
  }

  lemma DecodeFieldsCons(fs: seq<Field>, s: Stream, ctx: Ctx, x: Value, s1: Stream)
    requires fs != [] && DecodeField(fs[0], s, ctx) == Ok((x, s1))
    ensures DecodeFields(fs, s, ctx) == DecodeFields(fs[1..], s1, Record(ctx, fs[0], x))
  {
  }

  /** One field of a record: a named field encodes its attribute, an
      unnamed one is padding. */
  lemma OneFieldRoundTrip(f: Field, v: Option<Value>, x: Value, ctx: Ctx, d: seq<Byte>, pos: nat)
    requires f.name == "" ==> f.Plain? && Arity(f.codes) == 0 && v.None? && x == Nums([])
    requires f.name != "" ==> v == Some(x) && FieldTrips(f, x, ctx)
    ensures EncodeField(f, v).Ok?
    ensures At(d, pos, EncodeField(f, v).value) ==>
              DecodeField(f, Stream(d, pos), ctx) == Ok((x, Stream(d, pos + |EncodeField(f, v).value|)))
    decreases f, 1
  {
    if f.name == "" {
      PaddingFits(f.codes);
      CodesRoundTrip(f.codes, Nums([]), d, pos);
      assert EncodeField(f, v) == EncodeElem(Codes(f.codes), Nums([]));
      assert DecodeField(f, Stream(d, pos), ctx) == DecodeCodes(f.codes, Stream(d, pos));
    } else {
      FieldRoundTrip(f, x, ctx, d, pos);
    }
  }

  lemma {:induction false} FieldRoundTrip(f: Field, x: Value, ctx: Ctx, d: seq<Byte>, pos: nat)
    requires FieldTrips(f, x, ctx)
    ensures EncodeField(f, Some(x)).Ok?
    ensures At(d, pos, EncodeField(f, Some(x)).value) ==>
              DecodeField(f, Stream(d, pos), ctx) == Ok((x, Stream(d, pos + |EncodeField(f, Some(x)).value|)))
    decreases f, 0
  {
    match f
    case Plain(_, _, _, codes) =>
      CodesRoundTrip(codes, x, d, pos);
    case Nested(_, l) =>
      RecordRoundTrip(l, x.fields, None, d, pos);
    case List(_, e, times) =>
      ItemsRoundTrip(e, x.items, d, pos);
    case Str(_, len) =>
    case SubAtoms(_, _) =>
  }

  lemma {:induction false} ElemRoundTrip(e: Elem, x: Value, d: seq<Byte>, pos: nat)
    requires ElemTrips(e, x)
    ensures EncodeElem(e, x).Ok?
    ensures At(d, pos, EncodeElem(e, x).value) ==>
              DecodeElem(e, Stream(d, pos)) == Ok((x, Stream(d, pos + |EncodeElem(e, x).value|)))
    decreases e, 0
  {
    match e
    case Codes(codes) =>
      CodesRoundTrip(codes, x, d, pos);
    case Sub(l) =>
      RecordRoundTrip(l, x.fields, None, d, pos);
  }

  lemma {:induction false} ItemsRoundTrip(e: Elem, xs: seq<Value>, d: seq<Byte>, pos: nat)
    requires ItemsTrip(e, xs)
    ensures EncodeItems(e, xs).Ok?
    ensures At(d, pos, EncodeItems(e, xs).value) ==>
              DecodeItems(e, |xs|, Stream(d, pos)) == Ok((xs, Stream(d, pos + |EncodeItems(e, xs).value|)))
    decreases e, 2
  {
    ItemsEncode(e, xs);
    if At(d, pos, EncodeItems(e, xs).value) {
      ItemsDecode(e, xs, d, pos, EncodeItems(e, xs).value);
    }
  }

  lemma {:induction false} ItemsEncode(e: Elem, xs: seq<Value>)
    requires ItemsTrip(e, xs)
    ensures EncodeItems(e, xs).Ok?
    decreases e, 1, |xs|
  {
    if xs != [] {
      ElemRoundTrip(e, xs[0], [], 0);
      ItemsEncode(e, xs[1..]);
    }
  }

  lemma {:induction false} ItemsDecode(e: Elem, xs: seq<Value>, d: seq<Byte>, pos: nat, bs: seq<Byte>)
    requires ItemsTrip(e, xs) && EncodeItems(e, xs) == Ok(bs) && At(d, pos, bs)
    ensures DecodeItems(e, |xs|, Stream(d, pos)) == Ok((xs, Stream(d, pos + |bs|)))
    decreases e, 1, |xs|
  {
    if xs != [] {
      var b, rest := EncodeItemsUncons(e, xs, bs);
      AtSplit(d, pos, b, rest);
      ItemsDecode(e, xs[1..], d, pos + |b|, rest);
      ItemsDecodeHead(e, xs, d, pos, b, bs);
    }
  }

  lemma ItemsDecodeHead(e: Elem, xs: seq<Value>, d: seq<Byte>, pos: nat, b: seq<Byte>, bs: seq<Byte>)
    requires xs != [] && ElemTrips(e, xs[0]) && EncodeElem(e, xs[0]) == Ok(b) && At(d, pos, b) && |b| <= |bs|
    requires DecodeItems(e, |xs| - 1, Stream(d, pos + |b|)) == Ok((xs[1..], Stream(d, pos + |bs|)))
    ensures DecodeItems(e, |xs|, Stream(d, pos)) == Ok((xs, Stream(d, pos + |bs|)))
    decreases e, 1, 0
  {
    ElemRoundTrip(e, xs[0], d, pos);
    DecodeItemsSplit(e, xs, Stream(d, pos), Stream(d, pos + |b|), Stream(d, pos + |bs|));
  }

  /** The bytes of a non-empty list: those of the first item, then the rest. */
  lemma EncodeItemsUncons(e: Elem, xs: seq<Value>, bs: seq<Byte>) returns (b: seq<Byte>, rest: seq<Byte>)
    requires xs != [] && EncodeItems(e, xs) == Ok(bs)
    ensures EncodeElem(e, xs[0]) == Ok(b) && EncodeItems(e, xs[1..]) == Ok(rest) && bs == b + rest
  {
    b := EncodeElem(e, xs[0]).value;
    rest := EncodeItems(e, xs[1..]).value;
  }

  lemma DecodeItemsCons(e: Elem, n: nat, s: Stream, x: Value, s1: Stream, xs: seq<Value>, s2: Stream)
    requires n > 0 && DecodeElem(e, s) == Ok((x, s1)) && DecodeItems(e, n - 1, s1) == Ok((xs, s2))
    ensures DecodeItems(e, n, s) == Ok(([x] + xs, s2))
  {
  }

  /** Decoding the first item, then the rest of a list, gives the list. */
  lemma DecodeItemsSplit(e: Elem, xs: seq<Value>, s: Stream, s1: Stream, s2: Stream)
    requires xs != [] && DecodeElem(e, s) == Ok((xs[0], s1)) && DecodeItems(e, |xs| - 1, s1) == Ok((xs[1..], s2))
    ensures DecodeItems(e, |xs|, s) == Ok((xs, s2))
  {
    DecodeItemsCons(e, |xs|, s, xs[0], s1, xs[1..], s2);
    assert [xs[0]] + xs[1..] == xs;
  }

  /** A format made only of pad bytes packs the empty tuple. */
  lemma {:induction false} PaddingFits(f: seq<Code>)
    requires Arity(f) == 0
    ensures AllFit(f, [])
    decreases f
  {
    if f != [] {
      PaddingFits(f[1..]);
    }
  }

  /** Decoding what encoding wrote binds every visible name to the value of
      its attribute, and leaves the other names it had bound alone. */
  lemma {:induction false} TripInit(l: Layout, fs: seq<Field>, vals: seq<Value>, ctx: Ctx)
    requires FieldsTrip(l, fs, vals, ctx)
    ensures forall n :: n in VisibleNames(fs) ==>
              && n in TripCtx(l, fs, vals, ctx).init
              && GetAttr(l, vals, n).Ok?
              && TripCtx(l, fs, vals, ctx).init[n] == GetAttr(l, vals, n).value
    ensures forall n :: n != "" && n !in VisibleNames(fs) && n in ctx.init ==>
              n in TripCtx(l, fs, vals, ctx).init && TripCtx(l, fs, vals, ctx).init[n] == ctx.init[n]
    decreases fs
  {
    if fs != [] {
      var f := fs[0];
      var x := if f.name == "" then Nums([]) else GetAttr(l, vals, f.name).value;
      TripInit(l, fs[1..], vals, Record(ctx, f, x));
      assert VisibleNames(fs) == (if Visible(f) then [f.name] else []) + VisibleNames(fs[1..]);
    }
  }

  // ---------------------------------------------------------------------
  // Sizes, counts and short reads

  /** A list field decodes exactly as many items as its count says. */
  lemma {:induction false} DecodeItemsCount(e: Elem, n: nat, s: Stream)
    ensures DecodeItems(e, n, s).Ok? ==> |DecodeItems(e, n, s).value.0| == n
    decreases n
  {
    if n > 0 && DecodeItems(e, n, s).Ok? {
      var (x, s1) := DecodeElem(e, s).value;
      DecodeItemsCount(e, n - 1, s1);
    }
  }

  /** A string field reads exactly the length it asks for: a negative
      length or too few bytes is an `UnpackError`. */
  lemma DecodeStr(name: string, len: Length, s: Stream, ctx: Ctx)
    requires EvalLength(len, ctx).Ok?
    ensures var n := EvalLength(len, ctx).value;
            && (n < 0 || s.Available() < n ==> DecodeField(Str(name, len), s, ctx) == Err(UnpackError))
            && (0 <= n <= s.Available() && s.pos <= |s.data| ==>
                  DecodeField(Str(name, len), s, ctx) == Ok((Blob(s.data[s.pos..s.pos + n]), Stream(s.data, s.pos + n))))
  {
  }

  function Zeros(n: nat): (r: seq<Byte>)
    ensures |r| == n
  {
    if n == 0 then [] else [0] + Zeros(n - 1)
  }

  /** Unnamed padding packs no values and writes zero bytes. */
  lemma {:induction false} PaddingZeros(f: seq<Code>)
    requires forall i :: 0 <= i < |f| ==> f[i] == X
    ensures PackCodes(f, []) == Ok(Zeros(FormatSize(f)))
    decreases f
  {
    if f != [] {
      PaddingZeros(f[1..]);
    }
  }

  /** A record of fixed size encodes to exactly that many bytes. */
  lemma {:induction false} FixedEncodeSize(l: Layout, vals: seq<Value>)
    requires StructSize(l).Some? && EncodeRecord(l, vals).Ok?
    ensures |EncodeRecord(l, vals).value| == StructSize(l).value
    decreases l, 0
  {
    FieldsEncodeSize(l, l.fields, vals);
  }

  lemma {:induction false} FieldsEncodeSize(l: Layout, fs: seq<Field>, vals: seq<Value>)
    requires SizeOfFields(fs).Some? && EncodeFields(l, fs, vals).Ok?
    ensures |EncodeFields(l, fs, vals).value| == SizeOfFields(fs).value
    decreases fs
  {
    if fs != [] {
      var b, rest := EncodeFieldsUncons(l, fs, vals, EncodeFields(l, fs, vals).value);
      FieldEncodeSize(fs[0], Given(l, fs[0], vals).value);
      FieldsEncodeSize(l, fs[1..], vals);
    }
  }

  lemma {:induction false} FieldEncodeSize(f: Field, v: Option<Value>)
    requires FieldSize(f).Some? && EncodeField(f, v).Ok?
    ensures |EncodeField(f, v).value| == FieldSize(f).value
    decreases f
  {
    if f.Nested? {
      FixedEncodeSize(f.layout, v.value.fields);
    }
  }

  /** A record of fixed size decodes whenever that many bytes remain, and
      then consumes exactly them; otherwise it fails with an `UnpackError`. */
  lemma {:induction false} FixedDecode(l: Layout, s: Stream, atom: Option<nat>)
    requires StructSize(l).Some?
    ensures DecodeRecord(l, s, atom).Ok? <==> s.Available() >= StructSize(l).value
    ensures DecodeRecord(l, s, atom).Ok? ==> DecodeRecord(l, s, atom).value.1 == Stream(s.data, s.pos + StructSize(l).value)
    ensures DecodeRecord(l, s, atom).Err? ==> DecodeRecord(l, s, atom).error == UnpackError
    decreases l, 0
  {
    FixedFieldsDecode(l.fields, s, NewCtx(atom));
    if DecodeFields(l.fields, s, NewCtx(atom)).Ok? {
      var (ctx, s1) := DecodeFields(l.fields, s, NewCtx(atom)).value;
      assert VisibleNames(l.fields)[..0] == [];
      assert forall k :: 0 <= k < |VisibleNames(l.fields)| ==> VisibleNames(l.fields)[k] in VisibleNames(l.fields);
    }
  }

  lemma {:induction false} FixedFieldsDecode(fs: seq<Field>, s: Stream, ctx: Ctx)
    requires SizeOfFields(fs).Some?
    ensures DecodeFields(fs, s, ctx).Ok? <==> s.Available() >= SizeOfFields(fs).value
    ensures DecodeFields(fs, s, ctx).Ok? ==>
              && DecodeFields(fs, s, ctx).value.1 == Stream(s.data, s.pos + SizeOfFields(fs).value)
              && (forall n :: n in VisibleNames(fs) ==> n in DecodeFields(fs, s, ctx).value.0.init)
    ensures DecodeFields(fs, s, ctx).Err? ==> DecodeFields(fs, s, ctx).error == UnpackError
    decreases fs
  {
    if fs != [] {
      var f := fs[0];
      var n := FieldSize(f).value;
      FixedFieldDecode(f, s, ctx);
      if DecodeField(f, s, ctx).Ok? {
        var (x, s1) := DecodeField(f, s, ctx).value;
        FixedFieldsDecode(fs[1..], s1, Record(ctx, f, x));
        DecodeFieldsCons(fs, s, ctx, x, s1);
        if DecodeFields(fs, s, ctx).Ok? {
          InitGrows(fs[1..], s1, Record(ctx, f, x));
        }
      }
    }
  }

  lemma {:induction false} FixedFieldDecode(f: Field, s: Stream, ctx: Ctx)
    requires FieldSize(f).Some?
    ensures DecodeField(f, s, ctx).Ok? <==> s.Available() >= FieldSize(f).value
    ensures DecodeField(f, s, ctx).Ok? ==> DecodeField(f, s, ctx).value.1 == Stream(s.data, s.pos + FieldSize(f).value)
    ensures DecodeField(f, s, ctx).Err? ==> DecodeField(f, s, ctx).error == UnpackError
    decreases f
  {
    if f.Nested? {
      FixedDecode(f.layout, s, None);
    }
  }

  /** Decoding more fields never unbinds a name. */
  lemma {:induction false} InitGrows(fs: seq<Field>, s: Stream, ctx: Ctx)
    requires DecodeFields(fs, s, ctx).Ok?
    ensures ctx.init.Keys <= DecodeFields(fs, s, ctx).value.0.init.Keys
    decreases fs
  {
    if fs != [] {
      var (x, s1) := DecodeField(fs[0], s, ctx).value;
      InitGrows(fs[1..], s1, Record(ctx, fs[0], x));
    }
  }

  /** Decoding two runs of fields decodes the first, then the second from
      where the first stopped; an error in the first is the error. */
  lemma {:induction false} DecodeFieldsAppend(a: seq<Field>, b: seq<Field>, s: Stream, ctx: Ctx)
    ensures var r := DecodeFields(a, s, ctx);
            DecodeFields(a + b, s, ctx) == if r.Err? then Err(r.error) else DecodeFields(b, r.value.1, r.value.0)
    decreases a
  {
    if a == [] {
      assert a + b == b;
    } else {
      assert (a + b)[0] == a[0] && (a + b)[1..] == a[1..] + b;
      if DecodeField(a[0], s, ctx).Ok? {
        var (x, s1) := DecodeField(a[0], s, ctx).value;
        DecodeFieldsAppend(a[1..], b, s1, Record(ctx, a[0], x));
      }
    }
  }

  /** Decoding fields keeps the declared size of the atom being decoded. */
  lemma {:induction false} DecodeFieldsAtom(fs: seq<Field>, s: Stream, ctx: Ctx)
    requires DecodeFields(fs, s, ctx).Ok?
    ensures DecodeFields(fs, s, ctx).value.0.atom == ctx.atom
    decreases fs
  {
    if fs != [] {
      var (x, s1) := DecodeField(fs[0], s, ctx).value;
      DecodeFieldsAtom(fs[1..], s1, Record(ctx, fs[0], x));
    }
  }

  /** The visible names of two runs of fields, in order. */
  lemma {:induction false} VisibleNamesAppend(a: seq<Field>, b: seq<Field>)
    ensures VisibleNames(a + b) == VisibleNames(a) + VisibleNames(b)
  {
    if a == [] {
      assert a + b == b;
    } else {
      assert (a + b)[0] == a[0] && (a + b)[1..] == a[1..] + b;
      VisibleNamesAppend(a[1..], b);
    }
  }
}
