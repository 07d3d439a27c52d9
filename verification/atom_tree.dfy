/** In-memory atoms (`MovAtomD` in movio.py): a leaf holds its raw payload,
    a node holds its sub-atoms. A leaf becomes a node by splitting its payload
    into sub-atoms; lookups by tag path split every atom they descend into.

    The program mutates atoms in place through shared references. Here a tree
    is a value: a lookup returns the (partly split) tree together with the
    positions of the atoms it found, and an edit replaces the atom at a
    position. */
module AtomTree {
  import opened Wrappers
  import opened Bytes
  import opened AtomReader
  import opened AtomWriter

  datatype AtomD = Leaf(tag: Tag, data: seq<Byte>) | Node(tag: Tag, atoms: seq<AtomD>)

  /** A reader that has read its header has a tag. */
  predicate Valid(r: Reader)
  {
    !r.isRoot && r.bytesRead > 0 ==> r.tag.Some?
  }

  /** `MovAtomR.to_atomd`: an atom whose header alone has been read becomes a
      leaf holding its whole payload. */
  function ToAtomD(r: Reader, s: Stream): (res: Result<(AtomD, Reader, Stream)>)
    requires Valid(r)
    ensures r.isRoot ==> res == Err(ValueError)
    ensures !r.isRoot && r.bytesRead != 0 && r.bytesRead != 8 ==> res == Err(RuntimeError)
    ensures res.Ok? ==>
              && Headed(r, s).Ok?
              && var (r1, s1) := Headed(r, s).value;
                 var (a, r', s') := res.value;
                 && a.Leaf? && r1.bytesRead == 8 && r1.tag == Some(a.tag)
                 && |a.data| + 8 == r1.size && r'.bytesRead == r1.size
                 && |a.data| <= s1.Available()
                 && (s1.pos <= |s1.data| ==> a.data == s1.data[s1.pos..s1.pos + |a.data|])
                 && s' == s1.Skip(|a.data|)
  {
    if r.isRoot then Err(ValueError)
    else
      var (r1, s1) :- Headed(r, s);
      if r1.bytesRead != 8 then Err(RuntimeError)
      else
        var (d, r2, s2) :- ReadData(r1, s1, None, false);
        Ok((Leaf(r1.tag.value, d), r2, s2))
  }

  /** `calculate_size`: header plus payload, or header plus the sizes of the
      sub-atoms. */
  function Size(a: AtomD): (n: nat)
    ensures n >= 8
  {
    match a
    case Leaf(_, data) => |data| + 8
    case Node(_, atoms) => SizeAll(atoms) + 8
  }

  function SizeAll(atoms: seq<AtomD>): nat
  {
    if atoms == [] then 0 else Size(atoms[0]) + SizeAll(atoms[1..])
  }

  lemma {:induction false} SizeAllAppend(xs: seq<AtomD>, ys: seq<AtomD>)
    ensures SizeAll(xs + ys) == SizeAll(xs) + SizeAll(ys)
  {
    if xs == [] {
      assert xs + ys == ys;
    } else {
      assert (xs + ys)[0] == xs[0];
      assert (xs + ys)[1..] == xs[1..] + ys;
      SizeAllAppend(xs[1..], ys);
    }
  }

  lemma {:induction false} SizeAllBound(atoms: seq<AtomD>, i: nat)
    requires i < |atoms|
    ensures Size(atoms[i]) <= SizeAll(atoms)
  {
    if i > 0 {
      SizeAllBound(atoms[1..], i - 1);
    }
  }

  /** The bytes of an atom as the file format lays them out: the big-endian
      u32 size, the tag, then the payload or the sub-atoms in order. This is
      the reference the writer is checked against. */
  function Serialize(a: AtomD): (b: seq<Byte>)
    requires Size(a) < U32_LIMIT
    ensures |b| == Size(a)
    decreases a, 1
  {
    match a
    case Leaf(tag, data) => U32(Size(a)) + tag + data
    case Node(tag, atoms) => U32(Size(a)) + tag + SerializeAll(atoms)
  }

  function SerializeAll(atoms: seq<AtomD>): (b: seq<Byte>)
    requires SizeAll(atoms) < U32_LIMIT
    ensures |b| == SizeAll(atoms)
    decreases atoms, 0
  {
    if atoms == [] then []
    else
      SizeAllBound(atoms, 0);
      Serialize(atoms[0]) + SerializeAll(atoms[1..])
  }

  /** `write(fp)`: a writer with the calculated size, into which the payload
      or every sub-atom is written in turn. */
  function WriteAtom(k: Sink, a: AtomD): (r: Result<Sink>)
    ensures r.Ok? ==> |r.value.frames| == |k.frames|
    decreases a, 1
  {
    var k1 :- Open(k, Size(a), a.tag);
    var body := match a
      case Leaf(_, data) => Write(k1, data)
      case Node(_, atoms) => WriteAtoms(k1, atoms);
    Exit(body)
  }

  function WriteAtoms(k: Sink, atoms: seq<AtomD>): (r: Result<Sink>)
    ensures r.Ok? ==> |r.value.frames| == |k.frames|
    decreases atoms, 0
  {
    if atoms == [] then Ok(k)
    else
      var k1 :- WriteAtom(k, atoms[0]);
      WriteAtoms(k1, atoms[1..])
  }

  /** Writing an atom succeeds exactly when its size fits the u32 header and
      every enclosing writer has room for it; the output then grows by
      exactly its serialization. */
  lemma {:induction false} WriteAtomSerializes(k: Sink, a: AtomD)
    ensures WriteAtom(k, a).Ok? <==> Size(a) < U32_LIMIT && Room(k.frames, Size(a))
    ensures WriteAtom(k, a).Ok? ==>
              WriteAtom(k, a).value == Sink(Advance(k.frames, Size(a)), k.out + Serialize(a))
    decreases a, 2
  {
    if Open(k, Size(a), a.tag).Err? {
      WriteAtomOpenFails(k, a);
    } else if a.Leaf? {
      WriteLeaf(k, a);
    } else {
      WriteNode(k, a);
    }
  }

  lemma WriteAtomOpenFails(k: Sink, a: AtomD)
    requires Open(k, Size(a), a.tag).Err?
    ensures WriteAtom(k, a).Err?
    ensures !(Size(a) < U32_LIMIT && Room(k.frames, Size(a)))
  {
    AdvanceTwice(k.frames, 8, Size(a) - 8);
  }

  lemma WriteLeaf(k: Sink, a: AtomD)
    requires a.Leaf? && Open(k, Size(a), a.tag).Ok?
    ensures WriteAtom(k, a).Ok? <==> Room(k.frames, Size(a))
    ensures WriteAtom(k, a).Ok? ==>
              WriteAtom(k, a).value == Sink(Advance(k.frames, Size(a)), k.out + Serialize(a))
  {
    WriteLeafUnfold(k, a);
    DeclaredSizeEnforced(k, Size(a), a.tag, a.data);
    if WriteAtom(k, a).Ok? {
      LeafBytes(a.tag, a.data);
      AppendAssoc(k.out, U32(Size(a)), a.tag, a.data);
    }
  }

  /** A leaf's header followed by its payload is its serialization. */
  lemma LeafBytes(tag: Tag, data: seq<Byte>)
    requires |data| + 8 < U32_LIMIT
    ensures U32(|data| + 8) + tag + data == Serialize(Leaf(tag, data))
  {
  }

  lemma WriteLeafUnfold(k: Sink, a: AtomD)
    requires a.Leaf? && Open(k, Size(a), a.tag).Ok?
    ensures WriteAtom(k, a) == Exit(Write(Open(k, Size(a), a.tag).value, a.data))
  {
  }

  lemma WriteNodeUnfold(k: Sink, a: AtomD)
    requires a.Node? && Open(k, Size(a), a.tag).Ok?
    ensures WriteAtom(k, a) == Exit(WriteAtoms(Open(k, Size(a), a.tag).value, a.atoms))
  {
  }

  lemma {:induction false} WriteNode(k: Sink, a: AtomD)
    requires a.Node? && Open(k, Size(a), a.tag).Ok?
    ensures WriteAtom(k, a).Ok? <==> Room(k.frames, Size(a))
    ensures WriteAtom(k, a).Ok? ==>
              WriteAtom(k, a).value == Sink(Advance(k.frames, Size(a)), k.out + Serialize(a))
    decreases a, 1
  {
    var n := Size(a);
    var k1 := Open(k, n, a.tag).value;
    WriteNodeUnfold(k, a);
    OpenedRoom(k, n, a.tag);
    WriteAtomsSerialize(k1, a.atoms);
    FitAllOfSmall(a.atoms);
    RoomAfterOpen(k.frames, n, a.tag, n - 8);
    if WriteAtom(k, a).Ok? {
      NodeBytes(a.tag, a.atoms);
      AppendAssoc(k.out, U32(n), a.tag, SerializeAll(a.atoms));
    }
  }

  /** A writer just opened has room for nothing more at least. */
  lemma OpenedRoom(k: Sink, size: nat, tag: Tag)
    requires Open(k, size, tag).Ok?
    ensures Room(Open(k, size, tag).value.frames, 0)
  {
    var fs := Open(k, size, tag).value.frames;
    RoomAdvance(k.frames, 8, 0);
    assert fs[..|fs| - 1] == Advance(k.frames, 8);
  }

  /** A node's header followed by its sub-atoms is its serialization. */
  lemma NodeBytes(tag: Tag, atoms: seq<AtomD>)
    requires SizeAll(atoms) + 8 < U32_LIMIT
    ensures U32(SizeAll(atoms) + 8) + tag + SerializeAll(atoms) == Serialize(Node(tag, atoms))
  {
  }

  lemma AppendAssoc(out: seq<Byte>, h: seq<Byte>, t: seq<Byte>, s: seq<Byte>)
    ensures out + h + t + s == out + (h + t + s)
  {
  }

  lemma {:induction false} WriteAtomsSerialize(k: Sink, atoms: seq<AtomD>)
    requires Room(k.frames, 0)
    ensures WriteAtoms(k, atoms).Ok? <==> FitAll(atoms) && Room(k.frames, SizeAll(atoms))
    ensures WriteAtoms(k, atoms).Ok? && SizeAll(atoms) < U32_LIMIT ==>
              WriteAtoms(k, atoms).value == Sink(Advance(k.frames, SizeAll(atoms)), k.out + SerializeAll(atoms))
    decreases atoms, 1
  {
    if atoms == [] {
      AdvanceZero(k.frames);
    } else {
      WriteAtomsConsOk(k, atoms);
      if WriteAtoms(k, atoms).Ok? && SizeAll(atoms) < U32_LIMIT {
        WriteAtomsConsValue(k, atoms);
      }
    }
  }

  lemma {:induction false} WriteAtomsConsOk(k: Sink, atoms: seq<AtomD>)
    requires atoms != [] && Room(k.frames, 0)
    ensures WriteAtoms(k, atoms).Ok? <==> FitAll(atoms) && Room(k.frames, SizeAll(atoms))
    decreases atoms, 0
  {
    var a := atoms[0];
    var rest := atoms[1..];
    SizeAllCons(atoms);
    FitAllCons(atoms);
    WriteAtomSerializes(k, a);
    AdvanceTwice(k.frames, Size(a), SizeAll(rest));
    if WriteAtom(k, a).Ok? {
      var k1 := WriteAtom(k, a).value;
      WriteAtomsStep(k, atoms);
      RoomZeroAfter(k.frames, k1.frames, Size(a));
      WriteAtomsSerialize(k1, rest);
    } else {
      WriteAtomsStep(k, atoms);
    }
  }

  lemma SizeAllCons(atoms: seq<AtomD>)
    requires atoms != []
    ensures SizeAll(atoms) == Size(atoms[0]) + SizeAll(atoms[1..])
  {
  }

  /** One step of `WriteAtoms`: the first atom is written, then the rest. */
  lemma WriteAtomsStep(k: Sink, atoms: seq<AtomD>)
    requires atoms != []
    ensures WriteAtom(k, atoms[0]).Err? ==> WriteAtoms(k, atoms).Err?
    ensures WriteAtom(k, atoms[0]).Ok? ==>
              WriteAtoms(k, atoms) == WriteAtoms(WriteAtom(k, atoms[0]).value, atoms[1..])
  {
  }

  lemma {:induction false} WriteAtomsConsValue(k: Sink, atoms: seq<AtomD>)
    requires atoms != [] && Room(k.frames, 0)
    requires WriteAtoms(k, atoms).Ok? && SizeAll(atoms) < U32_LIMIT
    ensures WriteAtoms(k, atoms).value == Sink(Advance(k.frames, SizeAll(atoms)), k.out + SerializeAll(atoms))
    decreases atoms, 0
  {
    var a := atoms[0];
    var rest := atoms[1..];
    SizeAllCons(atoms);
    SizeAllBound(atoms, 0);
    WriteAtomSerializes(k, a);
    WriteAtomsStep(k, atoms);
    var k1 := WriteAtom(k, a).value;
    RoomZeroAfter(k.frames, k1.frames, Size(a));
    WriteAtomsSerialize(k1, rest);
    ChainAdvance(k.frames, k1.frames, Size(a), SizeAll(rest), SizeAll(atoms));
    ChainOut(k.out, k1.out, Serialize(a), SerializeAll(rest), SerializeAll(atoms));
  }

  lemma RoomZeroAfter(f: seq<Frame>, fa: seq<Frame>, m: nat)
    requires Room(f, m) && fa == Advance(f, m)
    ensures Room(fa, 0)
  {
    RoomAdvance(f, m, 0);
  }

  lemma ChainAdvance(f: seq<Frame>, fa: seq<Frame>, sa: nat, sr: nat, n: nat)
    requires fa == Advance(f, sa) && n == sa + sr
    ensures Advance(fa, sr) == Advance(f, n)
  {
    AdvanceTwice(f, sa, sr);
  }

  lemma ChainOut(out: seq<Byte>, out1: seq<Byte>, x: seq<Byte>, y: seq<Byte>, xy: seq<Byte>)
    requires out1 == out + x && xy == x + y
    ensures out1 + y == out + xy
  {
  }

  /** Every atom of the list fits the u32 header. */
  predicate FitAll(atoms: seq<AtomD>)
  {
    forall i :: 0 <= i < |atoms| ==> Size(atoms[i]) < U32_LIMIT
  }

  lemma FitAllOfSmall(atoms: seq<AtomD>)
    requires SizeAll(atoms) < U32_LIMIT
    ensures FitAll(atoms)
  {
    forall i | 0 <= i < |atoms|
      ensures Size(atoms[i]) < U32_LIMIT
    {
      SizeAllBound(atoms, i);
    }
  }

  lemma FitAllCons(atoms: seq<AtomD>)
    requires atoms != []
    ensures FitAll(atoms) <==> Size(atoms[0]) < U32_LIMIT && FitAll(atoms[1..])
  {
    if Size(atoms[0]) < U32_LIMIT && FitAll(atoms[1..]) {
      forall i | 0 <= i < |atoms|
        ensures Size(atoms[i]) < U32_LIMIT
      {
        if i > 0 {
          assert atoms[i] == atoms[1..][i - 1];
        }
      }
    }
  }

  /** The payload of an atom as it is laid out after the header. */
  function Body(a: AtomD): (b: seq<Byte>)
    requires Size(a) < U32_LIMIT
    ensures |b| + 8 == Size(a)
  {
    match a
    case Leaf(_, data) => data
    case Node(_, atoms) => SerializeAll(atoms)
  }

  lemma SerializeIsHeaderAndBody(a: AtomD)
    requires Size(a) < U32_LIMIT
    ensures Serialize(a) == U32(Size(a)) + a.tag + Body(a)
  {
  }

  /** The consumer of `iter_atoms` in `split` reads every child with `to_atomd`. */
  const ReadAll: Select := Except({})

  /** Every child of the list carries its payload. */
  predicate AllRead(cs: seq<Child>)
  {
    forall i :: 0 <= i < |cs| ==> cs[i].payload.Some?
  }

  /** The leaves `to_atomd` makes of the children, in stream order. */
  function Leaves(cs: seq<Child>): (r: seq<AtomD>)
    requires AllRead(cs)
    ensures |r| == |cs|
  {
    if cs == [] then [] else [Leaf(cs[0].tag, cs[0].payload.value)] + Leaves(cs[1..])
  }

  lemma {:induction false} DescribesReadsAll(data: seq<Byte>, at: nat, cs: seq<Child>)
    requires Describes(data, at, cs, ReadAll)
    ensures AllRead(cs)
    decreases |cs|
  {
    if cs != [] {
      DescribesReadsAll(data, at + cs[0].size, cs[1..]);
      forall i | 0 <= i < |cs|
        ensures cs[i].payload.Some?
      {
        if i > 0 {
          assert cs[i] == cs[1..][i - 1];
        }
      }
    }
  }

  /** `split`: the payload of a leaf is read as a file of atoms, each of which
      becomes a leaf; a node is already split. An error of the walk, or of
      reading a child's payload, is raised by `split`. */
  function Split(a: AtomD): (r: Result<AtomD>)
    ensures a.Node? ==> r == Err(ValueError)
    ensures r.Ok? ==> r.value.Node? && r.value.tag == a.tag
  {
    match a
    case Node(_, _) => Err(ValueError)
    case Leaf(tag, data) =>
      var s := Stream(data, 0);
      var w := IterAtoms(MakeRoot(s), s, ReadAll);
      if w.stop.Some? then Err(w.stop.value)
      else
        ChildLoopDescribes(MakeRoot(s), s, ReadAll);
        DescribesReadsAll(data, 0, w.children);
        Ok(Node(tag, Leaves(w.children)))
  }

  /** Each atom seen one level down: a leaf of its tag and body. */
  function Shallow(atoms: seq<AtomD>): (r: seq<AtomD>)
    requires SizeAll(atoms) < U32_LIMIT
    ensures |r| == |atoms|
    decreases atoms
  {
    if atoms == [] then []
    else
      SizeAllBound(atoms, 0);
      [Leaf(atoms[0].tag, Body(atoms[0]))] + Shallow(atoms[1..])
  }

  /** Splitting the serialization of a list of atoms gives back those atoms,
      each one level deep: their tags and payloads, in order. */
  lemma SplitOfSerialized(tag: Tag, atoms: seq<AtomD>)
    requires SizeAll(atoms) < U32_LIMIT
    ensures Split(Leaf(tag, SerializeAll(atoms))) == Ok(Node(tag, Shallow(atoms)))
  {
    var data := SerializeAll(atoms);
    assert data[0..] == data;
    WalkSerialized(data, MakeRoot(Stream(data, 0)), atoms);
  }

  /** The walk of `split` over serialized atoms, from any of their boundaries. */
  lemma {:induction false} WalkSerialized(data: seq<Byte>, r: Reader, atoms: seq<AtomD>)
    requires r.size == |data| && r.bytesRead + SizeAll(atoms) == |data| && SizeAll(atoms) < U32_LIMIT
    requires data[r.bytesRead..] == SerializeAll(atoms)
    ensures ChildLoop(r, Stream(data, r.bytesRead), ReadAll).stop == None
    ensures AllRead(ChildLoop(r, Stream(data, r.bytesRead), ReadAll).children)
    ensures Leaves(ChildLoop(r, Stream(data, r.bytesRead), ReadAll).children) == Shallow(atoms)
    decreases atoms
  {
    if atoms != [] {
      var pos := r.bytesRead;
      var a := atoms[0];
      var rest := atoms[1..];
      var n := Size(a);
      SizeAllCons(atoms);
      SizeAllBound(atoms, 0);
      var c := Child(pos, n, a.tag, Some(Body(a)));
      var s1 := Stream(data, pos + n);
      var r1 := r.(bytesRead := r.bytesRead + c.size);
      HeaderAt(data, pos, a, rest, atoms);
      ChildLoopCons(r, Stream(data, pos), ReadAll, c, s1);
      assert r1.bytesRead == pos + n && data[r1.bytesRead..] == SerializeAll(rest);
      assert Stream(data, r1.bytesRead) == s1;
      WalkSerialized(data, r1, rest);
      var w1 := ChildLoop(r1, s1, ReadAll);
      var w := ChildLoop(r, Stream(data, pos), ReadAll);
      assert w.stop == w1.stop == None;
      LeavesCons(c, w1.children);
      ShallowCons(atoms);
      assert w.children == [c] + w1.children;
      assert Leaves(w.children) == [Leaf(a.tag, Body(a))] + Leaves(w1.children);
    }
  }

  lemma ShallowCons(atoms: seq<AtomD>)
    requires atoms != [] && SizeAll(atoms) < U32_LIMIT
    ensures Size(atoms[0]) < U32_LIMIT && SizeAll(atoms[1..]) < U32_LIMIT
    ensures Shallow(atoms) == [Leaf(atoms[0].tag, Body(atoms[0]))] + Shallow(atoms[1..])
  {
    SizeAllBound(atoms, 0);
  }

  lemma LeavesCons(c: Child, cs: seq<Child>)
    requires c.payload.Some? && AllRead(cs)
    ensures AllRead([c] + cs)
    ensures Leaves([c] + cs) == [Leaf(c.tag, c.payload.value)] + Leaves(cs)
  {
    assert ([c] + cs)[1..] == cs;
  }

  /** The next child of a serialized list is its first atom, header and body. */
  lemma HeaderAt(data: seq<Byte>, pos: nat, a: AtomD, rest: seq<AtomD>, atoms: seq<AtomD>)
    requires atoms == [a] + rest && SizeAll(atoms) < U32_LIMIT && Size(a) < U32_LIMIT
    requires pos + SizeAll(atoms) == |data| && SizeAll(atoms) == Size(a) + SizeAll(rest)
    requires data[pos..] == SerializeAll(atoms)
    ensures pos + Size(a) <= |data|
    ensures NextChild(Stream(data, pos), ReadAll) ==
              Ok((Child(pos, Size(a), a.tag, Some(Body(a))), Stream(data, pos + Size(a))))
    ensures data[pos + Size(a)..] == SerializeAll(rest)
  {
    var n := Size(a);
    var hdr, body, tail := U32(n), Body(a), SerializeAll(rest);
    SerializeIsHeaderAndBody(a);
    SerializeAllCons(atoms);
    assert data[pos..] == hdr + a.tag + body + tail;
    Pieces(data, pos, hdr, a.tag, body, tail);
    ReadU32OfU32(n);
    assert ReadU32(data[pos..pos + 4]) == n;
    NextChildOfHeader(Stream(data, pos), n, a.tag, body);
  }

  lemma SerializeAllCons(atoms: seq<AtomD>)
    requires atoms != [] && SizeAll(atoms) < U32_LIMIT
    ensures Size(atoms[0]) < U32_LIMIT && SizeAll(atoms[1..]) < U32_LIMIT
    ensures SerializeAll(atoms) == Serialize(atoms[0]) + SerializeAll(atoms[1..])
  {
    SizeAllBound(atoms, 0);
  }

  /** Cutting a run of bytes laid out as header, tag, body and rest. */
  lemma Pieces(data: seq<Byte>, pos: nat, h: seq<Byte>, t: seq<Byte>, b: seq<Byte>, rest: seq<Byte>)
    requires pos <= |data| && data[pos..] == h + t + b + rest && |h| == 4 && |t| == 4
    ensures pos + 8 + |b| + |rest| == |data|
    ensures data[pos..pos + 4] == h && data[pos + 4..pos + 8] == t
    ensures data[pos + 8..pos + 8 + |b|] == b && data[pos + 8 + |b|..] == rest
  {
    var x := data[pos..];
    assert data[pos..pos + 4] == x[..4];
    assert data[pos + 4..pos + 8] == x[4..8];
    assert data[pos + 8..pos + 8 + |b|] == x[8..8 + |b|];
    assert data[pos + 8 + |b|..] == x[8 + |b|..];
  }

  /** The step of the walk that reads every child, at a well-formed child. */
  lemma NextChildOfHeader(s: Stream, n: nat, tag: Tag, body: seq<Byte>)
    requires s.pos + n <= |s.data| && n == |body| + 8 && n < U32_LIMIT
    requires ReadU32(s.data[s.pos..s.pos + 4]) == n
    requires s.data[s.pos + 4..s.pos + 8] == tag && s.data[s.pos + 8..s.pos + n] == body
    ensures NextChild(s, ReadAll) == Ok((Child(s.pos, n, tag, Some(body)), Stream(s.data, s.pos + n)))
  {
  }

  /** Splitting never changes an atom's bytes: when a leaf splits, its
      children cover its payload exactly and serialize back to it. */
  lemma SplitKeepsBytes(tag: Tag, data: seq<Byte>)
    requires |data| + 8 < U32_LIMIT
    requires Split(Leaf(tag, data)).Ok?
    ensures Size(Split(Leaf(tag, data)).value) == |data| + 8
    ensures Serialize(Split(Leaf(tag, data)).value) == Serialize(Leaf(tag, data))
  {
    var s := Stream(data, 0);
    var r := MakeRoot(s);
    var w := ChildLoop(r, s, ReadAll);
    ChildLoopDescribes(r, s, ReadAll);
    ChildLoopAdvancesParent(r, s, ReadAll);
    ChildLoopStops(r, s, ReadAll);
    DescribesWithin(data, 0, w.children);
    DescribedBytes(data, 0, w.children);
    assert data[0..] == data;
    var n := Node(tag, Leaves(w.children));
    assert Split(Leaf(tag, data)) == Ok(n);
    SerializeIsHeaderAndBody(n);
    SerializeIsHeaderAndBody(Leaf(tag, data));
  }

  /** Children read in full lie within the data. */
  lemma {:induction false} DescribesWithin(data: seq<Byte>, at: nat, cs: seq<Child>)
    requires Describes(data, at, cs, ReadAll) && at <= |data|
    ensures at + SumSizes(cs) <= |data|
    decreases |cs|
  {
    if cs != [] {
      DescribesWithin(data, at + cs[0].size, cs[1..]);
    }
  }

  /** Children read in full that reach the end of the data are, as leaves,
      exactly the bytes from where they start. */
  lemma {:induction false} DescribedBytes(data: seq<Byte>, at: nat, cs: seq<Child>)
    requires Describes(data, at, cs, ReadAll) && at + SumSizes(cs) == |data| && SumSizes(cs) < U32_LIMIT
    ensures AllRead(cs)
    ensures SizeAll(Leaves(cs)) == SumSizes(cs)
    ensures SerializeAll(Leaves(cs)) == data[at..]
    decreases |cs|
  {
    DescribesReadsAll(data, at, cs);
    if cs == [] {
      assert data[at..] == [];
    } else {
      var c := cs[0];
      var rest := cs[1..];
      var leaf := Leaf(c.tag, c.payload.value);
      DescribedBytes(data, at + c.size, rest);
      LeavesCons(c, rest);
      assert cs == [c] + rest;
      ChildBytes(data, at, c);
      assert Leaves(cs)[0] == leaf && Leaves(cs)[1..] == Leaves(rest);
      assert data[at..] == data[at..at + c.size] + data[at + c.size..];
    }
  }

  /** A child read in full is, as a leaf, the bytes it occupies. */
  lemma ChildBytes(data: seq<Byte>, at: nat, c: Child)
    requires Describes(data, at, [c], ReadAll)
    ensures c.payload.Some? && at + c.size <= |data| && c.size < U32_LIMIT
    ensures Size(Leaf(c.tag, c.payload.value)) == c.size
    ensures Serialize(Leaf(c.tag, c.payload.value)) == data[at..at + c.size]
  {
    var h := data[at..at + 4];
    U32OfReadU32(h);
    var p := c.payload.value;
    assert data[at..at + c.size] == h + data[at + 4..at + 8] + data[at + 8..at + c.size];
  }

  /** A position in a tree: the indices of the sub-atoms followed from the top. */
  type Pos = seq<nat>

  /** The atom at a position, if there is one. */
  function At(a: AtomD, p: Pos): Option<AtomD>
    decreases |p|
  {
    if p == [] then Some(a)
    else if a.Leaf? || p[0] >= |a.atoms| then None
    else At(a.atoms[p[0]], p[1..])
  }

  /** Position `p` leads from `a` through sub-atoms tagged `path[0]`,
      `path[1]`, and so on, one tag per level. */
  predicate Follows(a: AtomD, p: Pos, path: seq<Tag>)
    decreases |p|, 1
  {
    |p| == |path| && (p != [] ==> a.Node? && FollowsAmong(a.atoms, p, path))
  }

  /** The same, starting from a list of sibling atoms. */
  predicate FollowsAmong(atoms: seq<AtomD>, p: Pos, path: seq<Tag>)
    decreases |p|, 0
  {
    && p != [] && |p| == |path| && p[0] < |atoms| && atoms[p[0]].tag == path[0]
    && Follows(atoms[p[0]], p[1..], path[1..])
  }

  /** Document order of positions: the first index where they differ
      decides, and a position comes before the positions inside it. */
  predicate Before(p: Pos, q: Pos)
    decreases |p|
  {
    q != [] && (p == [] || p[0] < q[0] || (p[0] == q[0] && Before(p[1..], q[1..])))
  }

  predicate Ordered(ps: seq<Pos>)
  {
    forall k, l :: 0 <= k < l < |ps| ==> Before(ps[k], ps[l])
  }

  /** The positions `ps`, seen from the parent, inside its `i`-th sub-atom. */
  function Under(i: nat, ps: seq<Pos>): (r: seq<Pos>)
    ensures |r| == |ps|
    ensures forall k :: 0 <= k < |ps| ==> r[k] == [i] + ps[k]
  {
    seq(|ps|, k requires 0 <= k < |ps| => [i] + ps[k])
  }

  /** `iter_atoms` of an in-memory atom: a leaf is split first. */
  function Expand(a: AtomD): (r: Result<AtomD>)
  {
    if a.Leaf? then Split(a) else Ok(a)
  }

  /** `find_atoms(*tpath)`: called without tags it fails with a `TypeError`
      (the inner `recurse` misses its tag argument). The atom is returned
      with the atoms along the path split, together with the positions of the
      atoms found. */
  function Find(a: AtomD, path: seq<Tag>): Result<(AtomD, seq<Pos>)>
  {
    if path == [] then Err(TypeError) else FindIn(a, path)
  }

  /** `recurse(atom, curr, *tpath)`: iterate over the sub-atoms, splitting
      the atom if it is a leaf. */
  function FindIn(a: AtomD, path: seq<Tag>): Result<(AtomD, seq<Pos>)>
    requires path != []
    decreases |path|, 1, 0
  {
    var n :- Expand(a);
    var (atoms', found) :- FindAmong(n.atoms, path, 0);
    Ok((Node(a.tag, atoms'), found))
  }

  /** The loop of `recurse` from the `i`-th sub-atom on: a sub-atom tagged
      `path[0]` is a result at the last level and is searched recursively
      otherwise; other sub-atoms are passed over untouched. */
  function FindAmong(atoms: seq<AtomD>, path: seq<Tag>, i: nat): Result<(seq<AtomD>, seq<Pos>)>
    requires path != [] && i <= |atoms|
    decreases |path|, 0, |atoms| - i
  {
    if i == |atoms| then Ok((atoms, []))
    else if atoms[i].tag != path[0] then FindAmong(atoms, path, i + 1)
    else if |path| == 1 then
      var (atoms', found) :- FindAmong(atoms, path, i + 1);
      Ok((atoms', [[i]] + found))
    else
      var (a', below) :- FindIn(atoms[i], path[1..]);
      var (atoms', found) :- FindAmong(atoms[i := a'], path, i + 1);
      Ok((atoms', Under(i, below) + found))
  }

  /** What a search does to the list of sub-atoms: sub-atoms before the
      start are untouched, every sub-atom keeps its tag, one whose tag is not
      the first of the path is untouched, and at the last level of the path
      nothing is split at all. */
  lemma {:induction false} FindAmongShape(atoms: seq<AtomD>, path: seq<Tag>, i: nat)
    requires path != [] && i <= |atoms| && FindAmong(atoms, path, i).Ok?
    ensures |FindAmong(atoms, path, i).value.0| == |atoms|
    ensures forall j :: 0 <= j < i ==> FindAmong(atoms, path, i).value.0[j] == atoms[j]
    ensures forall j :: i <= j < |atoms| ==> FindAmong(atoms, path, i).value.0[j].tag == atoms[j].tag
    ensures forall j :: i <= j < |atoms| && atoms[j].tag != path[0] ==> FindAmong(atoms, path, i).value.0[j] == atoms[j]
    ensures |path| == 1 ==> FindAmong(atoms, path, i).value.0 == atoms
    decreases |atoms| - i
  {
    if i < |atoms| {
      if atoms[i].tag != path[0] || |path| == 1 {
        FindAmongShape(atoms, path, i + 1);
      } else {
        var (a', below) := FindIn(atoms[i], path[1..]).value;
        FindAmongShape(atoms[i := a'], path, i + 1);
      }
    }
  }

  /** Every position found leads along the path in the returned tree. */
  lemma {:induction false} FindInSound(a: AtomD, path: seq<Tag>)
    requires path != [] && FindIn(a, path).Ok?
    ensures forall k :: 0 <= k < |FindIn(a, path).value.1| ==>
              Follows(FindIn(a, path).value.0, FindIn(a, path).value.1[k], path)
    decreases |path|, 1
  {
    var n := Expand(a).value;
    FindAmongSound(n.atoms, path, 0);
  }

  lemma {:induction false} FindAmongSound(atoms: seq<AtomD>, path: seq<Tag>, i: nat)
    requires path != [] && i <= |atoms| && FindAmong(atoms, path, i).Ok?
    ensures forall k :: 0 <= k < |FindAmong(atoms, path, i).value.1| ==>
              && FollowsAmong(FindAmong(atoms, path, i).value.0, FindAmong(atoms, path, i).value.1[k], path)
              && FindAmong(atoms, path, i).value.1[k][0] >= i
    decreases |path|, 0, |atoms| - i
  {
    if i < |atoms| {
      var (res, found) := FindAmong(atoms, path, i).value;
      if atoms[i].tag != path[0] {
        FindAmongSound(atoms, path, i + 1);
      } else if |path| == 1 {
        FindAmongSound(atoms, path, i + 1);
        FindAmongShape(atoms, path, i + 1);
        assert FollowsAmong(res, [i], path);
      } else {
        var (a', below) := FindIn(atoms[i], path[1..]).value;
        FindInSound(atoms[i], path[1..]);
        var rest := FindAmong(atoms[i := a'], path, i + 1).value.1;
        FindAmongSound(atoms[i := a'], path, i + 1);
        FindAmongShape(atoms[i := a'], path, i + 1);
        assert res[i] == a';
        assert found == Under(i, below) + rest;
        forall k | 0 <= k < |below|
          ensures FollowsAmong(res, [i] + below[k], path)
        {
          assert ([i] + below[k])[1..] == below[k];
        }
      }
    }
  }

  /** Every position that leads along the path in the returned tree is
      among those found. */
  lemma {:induction false} FindInComplete(a: AtomD, path: seq<Tag>, p: Pos)
    requires path != [] && FindIn(a, path).Ok?
    requires Follows(FindIn(a, path).value.0, p, path)
    ensures p in FindIn(a, path).value.1
    decreases |path|, 1
  {
    var n := Expand(a).value;
    FindAmongComplete(n.atoms, path, 0, p);
  }

  lemma {:induction false} FindAmongComplete(atoms: seq<AtomD>, path: seq<Tag>, i: nat, p: Pos)
    requires path != [] && i <= |atoms| && FindAmong(atoms, path, i).Ok?
    requires FollowsAmong(FindAmong(atoms, path, i).value.0, p, path) && p[0] >= i
    ensures p in FindAmong(atoms, path, i).value.1
    decreases |path|, 0, |atoms| - i
  {
    var (res, found) := FindAmong(atoms, path, i).value;
    FindAmongShape(atoms, path, i);
    if atoms[i].tag != path[0] {
      FindAmongComplete(atoms, path, i + 1, p);
    } else if |path| == 1 {
      if p[0] != i {
        FindAmongComplete(atoms, path, i + 1, p);
      } else {
        assert p == [i];
      }
    } else {
      var (a', below) := FindIn(atoms[i], path[1..]).value;
      var rest := FindAmong(atoms[i := a'], path, i + 1).value.1;
      assert found == Under(i, below) + rest;
      if p[0] != i {
        FindAmongComplete(atoms[i := a'], path, i + 1, p);
      } else {
        FindAmongCompleteHere(atoms, path, i, p);
      }
    }
  }

  /** A position below the atom the search stands on is found. */
  lemma {:induction false} FindAmongCompleteHere(atoms: seq<AtomD>, path: seq<Tag>, i: nat, p: Pos)
    requires |path| > 1 && i < |atoms| && atoms[i].tag == path[0] && FindAmong(atoms, path, i).Ok?
    requires FollowsAmong(FindAmong(atoms, path, i).value.0, p, path) && p[0] == i
    ensures p in FindAmong(atoms, path, i).value.1
    decreases |path|, 0, |atoms| - i - 1
  {
    var (res, found) := FindAmong(atoms, path, i).value;
    var (a', below) := FindIn(atoms[i], path[1..]).value;
    var rest := FindAmong(atoms[i := a'], path, i + 1).value.1;
    assert found == Under(i, below) + rest;
    FindAmongShape(atoms[i := a'], path, i + 1);
    assert res[i] == a';
    FindInComplete(atoms[i], path[1..], p[1..]);
    var k :| 0 <= k < |below| && below[k] == p[1..];
    assert p == [i] + below[k] == found[k];
  }

  /** The positions found are in document order, without repetition. */
  lemma {:induction false} FindInOrdered(a: AtomD, path: seq<Tag>)
    requires path != [] && FindIn(a, path).Ok?
    ensures Ordered(FindIn(a, path).value.1)
    decreases |path|, 1
  {
    var n := Expand(a).value;
    FindAmongOrdered(n.atoms, path, 0);
  }

  lemma {:induction false} FindAmongOrdered(atoms: seq<AtomD>, path: seq<Tag>, i: nat)
    requires path != [] && i <= |atoms| && FindAmong(atoms, path, i).Ok?
    ensures Ordered(FindAmong(atoms, path, i).value.1)
    ensures forall k :: 0 <= k < |FindAmong(atoms, path, i).value.1| ==>
              FindAmong(atoms, path, i).value.1[k] != [] && FindAmong(atoms, path, i).value.1[k][0] >= i
    decreases |path|, 0, |atoms| - i
  {
    if i < |atoms| {
      var found := FindAmong(atoms, path, i).value.1;
      if atoms[i].tag != path[0] {
        FindAmongOrdered(atoms, path, i + 1);
      } else if |path| == 1 {
        var rest := FindAmong(atoms, path, i + 1).value.1;
        FindAmongOrdered(atoms, path, i + 1);
        OrderedAppend([[i]], rest, i);
      } else {
        var (a', below) := FindIn(atoms[i], path[1..]).value;
        var rest := FindAmong(atoms[i := a'], path, i + 1).value.1;
        FindInOrdered(atoms[i], path[1..]);
        FindAmongOrdered(atoms[i := a'], path, i + 1);
        UnderOrdered(i, below);
        OrderedAppend(Under(i, below), rest, i);
      }
    }
  }

  lemma UnderOrdered(i: nat, ps: seq<Pos>)
    requires Ordered(ps)
    ensures Ordered(Under(i, ps))
  {
    var u := Under(i, ps);
    forall k, l | 0 <= k < l < |u|
      ensures Before(u[k], u[l])
    {
      assert u[k][1..] == ps[k] && u[l][1..] == ps[l];
    }
  }

  /** Two ordered runs, the second starting past the first index of every
      position in the first, make one ordered run. */
  lemma OrderedAppend(xs: seq<Pos>, ys: seq<Pos>, i: nat)
    requires Ordered(xs) && Ordered(ys)
    requires forall k :: 0 <= k < |xs| ==> xs[k] != [] && xs[k][0] == i
    requires forall k :: 0 <= k < |ys| ==> ys[k] != [] && ys[k][0] > i
    ensures Ordered(xs + ys)
  {
    var zs := xs + ys;
    forall k, l | 0 <= k < l < |zs|
      ensures Before(zs[k], zs[l])
    {
      if l < |xs| {
        assert zs[k] == xs[k] && zs[l] == xs[l];
      } else if k >= |xs| {
        assert zs[k] == ys[k - |xs|] && zs[l] == ys[l - |xs|];
      }
    }
  }

  /** A search splits atoms but never changes the bytes the atom is written
      as. */
  lemma {:induction false} FindInKeepsBytes(a: AtomD, path: seq<Tag>)
    requires path != [] && FindIn(a, path).Ok? && Size(a) < U32_LIMIT
    ensures Size(FindIn(a, path).value.0) == Size(a)
    ensures Serialize(FindIn(a, path).value.0) == Serialize(a)
    decreases |path|, 1
  {
    var n := Expand(a).value;
    if a.Leaf? {
      SplitKeepsBytes(a.tag, a.data);
    }
    var res := FindAmong(n.atoms, path, 0).value.0;
    FindAmongKeepsBytes(n.atoms, path, 0);
    SerializeIsHeaderAndBody(n);
    SerializeIsHeaderAndBody(Node(a.tag, res));
  }

  lemma {:induction false} FindAmongKeepsBytes(atoms: seq<AtomD>, path: seq<Tag>, i: nat)
    requires path != [] && i <= |atoms| && FindAmong(atoms, path, i).Ok? && SizeAll(atoms) < U32_LIMIT
    ensures SizeAll(FindAmong(atoms, path, i).value.0) == SizeAll(atoms)
    ensures SerializeAll(FindAmong(atoms, path, i).value.0) == SerializeAll(atoms)
    decreases |path|, 0, |atoms| - i
  {
    if i < |atoms| {
      if atoms[i].tag != path[0] || |path| == 1 {
        FindAmongKeepsBytes(atoms, path, i + 1);
      } else {
        var a' := FindIn(atoms[i], path[1..]).value.0;
        SizeAllBound(atoms, i);
        FindInKeepsBytes(atoms[i], path[1..]);
        ReplaceKeepsBytes(atoms, i, a');
        FindAmongKeepsBytes(atoms[i := a'], path, i + 1);
      }
    }
  }

  /** Replacing one atom of a list by one with the same bytes keeps the
      bytes of the list. */
  lemma {:induction false} ReplaceKeepsBytes(atoms: seq<AtomD>, i: nat, x: AtomD)
    requires i < |atoms| && SizeAll(atoms) < U32_LIMIT && Size(x) == Size(atoms[i])
    requires Size(x) < U32_LIMIT && Serialize(x) == Serialize(atoms[i])
    ensures SizeAll(atoms[i := x]) == SizeAll(atoms)
    ensures SerializeAll(atoms[i := x]) == SerializeAll(atoms)
  {
    var ys := atoms[i := x];
    SerializeAllCons(atoms);
    if i == 0 {
      assert ys[1..] == atoms[1..];
    } else {
      assert ys[1..] == atoms[1..][i - 1 := x];
      ReplaceKeepsBytes(atoms[1..], i - 1, x);
    }
    SerializeAllCons(ys);
  }

  /** The ways the program changes the payload of an atom it holds. */
  datatype Edit =
    | Splice(lo: nat, hi: nat, bytes: seq<Byte>)  // `atom.edit()[lo:hi] = bytes`
    | Overwrite(bytes: seq<Byte>)                 // `atom.edit()[:] = bytes`
    | Assign(bytes: seq<Byte>)                    // `atom.data = bytes`

  /** `edit()` refuses an atom that has been split. Assigning `data` to a
      split atom has no effect on what is written, since a split atom is
      written from its sub-atoms. */
  function ApplyEdit(a: AtomD, e: Edit): (r: Result<AtomD>)
    ensures a.Node? && !e.Assign? ==> r == Err(RuntimeError)
    ensures a.Node? && e.Assign? ==> r == Ok(a)
    ensures a.Leaf? ==> r.Ok? && r.value.Leaf?
    ensures r.Ok? ==> r.value.tag == a.tag
  {
    match e
    case Splice(lo, hi, b) => if a.Leaf? then Ok(Leaf(a.tag, SliceAssign(a.data, lo, hi, b))) else Err(RuntimeError)
    case Overwrite(b) => if a.Leaf? then Ok(Leaf(a.tag, b)) else Err(RuntimeError)
    case Assign(b) => if a.Leaf? then Ok(Leaf(a.tag, b)) else Ok(a)
  }

  /** `atom.data` as the program reads it: a split atom has no data, and
      slicing it fails with a `TypeError`. */
  function DataOf(a: AtomD): (r: Result<seq<Byte>>)
    ensures r.Ok? <==> a.Leaf?
    ensures r.Ok? ==> Size(a) == |r.value| + 8
    ensures r.Err? ==> r.error == TypeError
  {
    if a.Leaf? then Ok(a.data) else Err(TypeError)
  }

  /** The edit of the atom at a position, made through the shared reference
      the program holds to it: the rest of the tree is unchanged. */
  function Patch(a: AtomD, p: Pos, e: Edit): (r: Result<AtomD>)
    decreases |p|
  {
    if p == [] then ApplyEdit(a, e)
    else if a.Leaf? || p[0] >= |a.atoms| then Err(IndexError)
    else
      var x :- Patch(a.atoms[p[0]], p[1..], e);
      Ok(Node(a.tag, a.atoms[p[0] := x]))
  }

  /** Patching an atom that exists applies the edit to it, with the same
      outcome as editing it directly. */
  lemma {:induction false} PatchAt(a: AtomD, p: Pos, e: Edit)
    requires At(a, p).Some?
    ensures ApplyEdit(At(a, p).value, e).Err? ==> Patch(a, p, e) == Err(ApplyEdit(At(a, p).value, e).error)
    ensures ApplyEdit(At(a, p).value, e).Ok? ==>
              Patch(a, p, e).Ok? && At(Patch(a, p, e).value, p) == Some(ApplyEdit(At(a, p).value, e).value)
    decreases |p|
  {
    if p != [] {
      PatchAt(a.atoms[p[0]], p[1..], e);
    }
  }

  /** Patching one position leaves every other position of the same depth
      as it was. */
  lemma {:induction false} PatchElsewhere(a: AtomD, p: Pos, e: Edit, q: Pos)
    requires Patch(a, p, e).Ok? && |q| == |p| && q != p
    ensures At(Patch(a, p, e).value, q) == At(a, q)
    decreases |p|
  {
    var b := Patch(a, p, e).value;
    if p[0] == q[0] {
      assert p[1..] != q[1..] by {
        assert p == [p[0]] + p[1..] && q == [q[0]] + q[1..];
      }
      PatchElsewhere(a.atoms[p[0]], p[1..], e, q[1..]);
    }
  }

  /** Patching keeps the tags along every path, so positions found before
      an edit still lead along the same path after it. */
  lemma {:induction false} PatchKeepsFollows(a: AtomD, p: Pos, e: Edit, q: Pos, path: seq<Tag>)
    requires Patch(a, p, e).Ok?
    ensures Follows(Patch(a, p, e).value, q, path) <==> Follows(a, q, path)
    decreases |q|
  {
    var b := Patch(a, p, e).value;
    if p != [] && q != [] && |q| == |path| && q[0] < |a.atoms| {
      if p[0] == q[0] {
        PatchKeepsFollows(a.atoms[p[0]], p[1..], e, q[1..], path[1..]);
      }
      assert b.atoms[q[0]].tag == a.atoms[q[0]].tag;
    }
  }

  /** A position that leads along a path holds an atom with the path's last tag. */
  lemma {:induction false} FollowsAt(a: AtomD, p: Pos, path: seq<Tag>)
    requires Follows(a, p, path) && path != []
    ensures At(a, p).Some? && At(a, p).value.tag == path[|path| - 1]
    decreases |p|
  {
    if |p| > 1 {
      FollowsAt(a.atoms[p[0]], p[1..], path[1..]);
    }
  }
}
