/** `repair_file` (movrepair.py:172-235): the reference file's top-level
    atoms are kept in an ordered table, the broken file's first top-level
    `mdat` is located, the reference's `moov` is fixed for the ratio of the
    two `mdat` sizes, and the output is the table's atoms in order with the
    broken file's `mdat` in place of the reference's. */
module Repair {
  import opened Wrappers
  import opened Bytes
  import opened AtomReader
  import opened AtomWriter
  import opened AtomTree
  import opened TableRepair
  import Metadata

  const MDAT: Tag := Ascii("mdat")
  const MOOV: Tag := Ascii("moov")

  // ---------------------------------------------------------------------
  // The ordered table of reference atoms

  /** A value of the table: a reference atom read into memory, or the
      reference's `mdat`, kept as its reader, of which only the declared
      size is used. */
  datatype Entry = Held(atom: AtomD) | Skipped(size: nat)

  /** The tag of a value: `atom.tag`. */
  function EntryTag(e: Entry): Tag
  {
    if e.Held? then e.atom.tag else MDAT
  }

  /** `collections.OrderedDict`: the keys in insertion order, each with its value. */
  type Table = seq<(Tag, Entry)>

  predicate DistinctKeys(d: Table)
  {
    forall i, j :: 0 <= i < j < |d| ==> d[i].0 != d[j].0
  }

  /** Where a key sits in the table. */
  function IndexOf(d: Table, t: Tag): (r: Option<nat>)
    ensures r.Some? ==> r.value < |d| && d[r.value].0 == t
    ensures r.Some? ==> forall i :: 0 <= i < r.value ==> d[i].0 != t
    ensures r.None? ==> forall i :: 0 <= i < |d| ==> d[i].0 != t
  {
    if d == [] then None
    else if d[0].0 == t then Some(0)
    else
      match IndexOf(d[1..], t)
      case None => None
      case Some(j) => Some(j + 1)
  }

  /** With distinct keys, each key is found where it sits. */
  lemma IndexOfDistinct(d: Table, i: nat)
    requires DistinctKeys(d) && i < |d|
    ensures IndexOf(d, d[i].0) == Some(i)
  {
  }

  /** `table[t]`: a missing key is a `KeyError`. */
  function Get(d: Table, t: Tag): (r: Result<Entry>)
    ensures r.Ok? <==> IndexOf(d, t).Some?
    ensures r.Err? ==> r.error == KeyError
  {
    match IndexOf(d, t)
    case None => Err(KeyError)
    case Some(i) => Ok(d[i].1)
  }

  /** `table[t] = v`: a key already present keeps its place and takes the
      new value; a new key goes last. */
  function Put(d: Table, t: Tag, v: Entry): Table
  {
    match IndexOf(d, t)
    case Some(i) => d[i := (t, v)]
    case None => d + [(t, v)]
  }

  /** After `table[t] = v` the key `t` holds `v`, at its old place or last. */
  lemma PutSelf(d: Table, t: Tag, v: Entry)
    requires DistinctKeys(d)
    ensures DistinctKeys(Put(d, t, v))
    ensures IndexOf(Put(d, t, v), t) == Some(if IndexOf(d, t).Some? then IndexOf(d, t).value else |d|)
    ensures Get(Put(d, t, v), t) == Ok(v)
    ensures |Put(d, t, v)| == if IndexOf(d, t).Some? then |d| else |d| + 1
  {
    var r := Put(d, t, v);
    var k := if IndexOf(d, t).Some? then IndexOf(d, t).value else |d|;
    assert r[k] == (t, v);
    IndexOfDistinct(r, k);
  }

  /** After `table[t] = v` every other key keeps its place and its value. */
  lemma PutOther(d: Table, t: Tag, v: Entry, u: Tag)
    requires DistinctKeys(d) && u != t
    ensures IndexOf(Put(d, t, v), u) == IndexOf(d, u)
    ensures Get(Put(d, t, v), u) == Get(d, u)
  {
    PutSelf(d, t, v);
    match IndexOf(d, u)
    case Some(j) => IndexOfDistinct(Put(d, t, v), j);
    case None =>
  }

  /** `table[t] = table.pop(t)` for a key present: it moves to the end with
      its value. */
  function MoveToEnd(d: Table, t: Tag): (r: Table)
    requires IndexOf(d, t).Some?
  {
    var i := IndexOf(d, t).value;
    d[..i] + d[i + 1..] + [(t, d[i].1)]
  }

  /** The table after moving the key at `i` to the end, entry by entry. */
  lemma MoveToEndAt(d: Table, t: Tag, j: nat)
    requires IndexOf(d, t).Some? && j < |d|
    ensures var i := IndexOf(d, t).value;
            var r := MoveToEnd(d, t);
            |r| == |d| && r[j] == if j < i then d[j] else if j < |d| - 1 then d[j + 1] else (t, d[i].1)
  {
  }

  lemma MoveToEndDistinct(d: Table, t: Tag)
    requires DistinctKeys(d) && IndexOf(d, t).Some?
    ensures DistinctKeys(MoveToEnd(d, t)) && |MoveToEnd(d, t)| == |d|
    ensures IndexOf(MoveToEnd(d, t), t) == Some(|d| - 1)
  {
    var r := MoveToEnd(d, t);
    var i := IndexOf(d, t).value;
    forall j, k | 0 <= j < k < |r|
      ensures r[j].0 != r[k].0
    {
      MoveToEndAt(d, t, j);
      MoveToEndAt(d, t, k);
    }
    MoveToEndAt(d, t, |d| - 1);
    IndexOfDistinct(r, |d| - 1);
  }

  /** Moving a key to the end keeps every value and the order of the other
      keys, which close up behind it. */
  lemma MoveToEndSpec(d: Table, t: Tag, u: Tag)
    requires DistinctKeys(d) && IndexOf(d, t).Some?
    ensures var r := MoveToEnd(d, t);
            && DistinctKeys(r) && |r| == |d|
            && IndexOf(r, t) == Some(|d| - 1)
            && Get(r, u) == Get(d, u)
            && (u != t && IndexOf(d, u).Some? ==>
                  IndexOf(r, u) == Some(if IndexOf(d, u).value < IndexOf(d, t).value then IndexOf(d, u).value
                                        else IndexOf(d, u).value - 1))
            && (IndexOf(d, u).None? ==> IndexOf(r, u).None?)
  {
    var i := IndexOf(d, t).value;
    var r := MoveToEnd(d, t);
    MoveToEndDistinct(d, t);
    if u == t {
      MoveToEndAt(d, t, |d| - 1);
    } else if IndexOf(d, u).Some? {
      var j := IndexOf(d, u).value;
      var k := if j < i then j else j - 1;
      MoveToEndAt(d, t, k);
      IndexOfDistinct(r, k);
    } else if IndexOf(r, u).Some? {
      MoveToEndAt(d, t, IndexOf(r, u).value);
    }
  }

  /** What the consumer stores for one top-level child of the reference
      (movrepair.py:186-202). */
  function EntryOf(c: Child): Entry
    requires c.tag != MDAT ==> c.payload.Some?
  {
    if c.tag != MDAT then Held(Leaf(c.tag, c.payload.value)) else Skipped(c.size)
  }

  /** One child: an atom other than `mdat` is read into memory, and the
      `moov` already in the table, if any, moves to the end first; then
      the child is stored under its tag. */
  function Absorb(d: Table, c: Child): Table
    requires c.tag != MDAT ==> c.payload.Some?
  {
    Put(Moved(d, c), c.tag, EntryOf(c))
  }

  /** The keys of the table are distinct and each names its value's tag. */
  predicate WellKeyed(d: Table)
  {
    DistinctKeys(d) && forall i :: 0 <= i < |d| ==> EntryTag(d[i].1) == d[i].0
  }

  /** The table before storing the child: `moov` moved to the end when the
      child is not an `mdat`. */
  function Moved(d: Table, c: Child): Table
  {
    if c.tag != MDAT && IndexOf(d, MOOV).Some? then MoveToEnd(d, MOOV) else d
  }

  /** Storing one child keeps the table well keyed and puts the child's
      value under its tag. */
  lemma AbsorbKeyed(d: Table, c: Child)
    requires c.tag != MDAT ==> c.payload.Some?
    requires WellKeyed(d)
    ensures WellKeyed(Absorb(d, c))
    ensures Get(Absorb(d, c), c.tag) == Ok(EntryOf(c))
  {
    var d1 := Moved(d, c);
    if d1 != d {
      MoveToEndDistinct(d, MOOV);
    }
    PutSelf(d1, c.tag, EntryOf(c));
    var r := Absorb(d, c);
    forall i | 0 <= i < |r|
      ensures EntryTag(r[i].1) == r[i].0
    {
      var k := r[i].0;
      IndexOfDistinct(r, i);
      if k != c.tag {
        AbsorbOthers(d, c, k);
        var j := IndexOf(d, k).value;
        assert d[j] == (k, r[i].1);
      }
    }
  }

  /** Storing one child changes no value under another key. */
  lemma AbsorbOthers(d: Table, c: Child, u: Tag)
    requires c.tag != MDAT ==> c.payload.Some?
    requires WellKeyed(d) && u != c.tag
    ensures Get(Absorb(d, c), u) == Get(d, u)
  {
    var d1 := Moved(d, c);
    if d1 != d {
      MoveToEndSpec(d, MOOV, u);
    }
    PutOther(d1, c.tag, EntryOf(c), u);
  }

  /** Where a key other than `moov` and the child's sits after storing the
      child: at its old place, or one earlier when `moov` moved from before it. */
  lemma AbsorbIndex(d: Table, c: Child, u: Tag)
    requires c.tag != MDAT ==> c.payload.Some?
    requires WellKeyed(d) && u != c.tag && u != MOOV && IndexOf(d, u).Some?
    ensures IndexOf(Absorb(d, c), u) == Some(
              if Moved(d, c) != d && IndexOf(d, MOOV).value < IndexOf(d, u).value
              then IndexOf(d, u).value - 1 else IndexOf(d, u).value)
  {
    var d1 := Moved(d, c);
    if d1 != d {
      MoveToEndSpec(d, MOOV, u);
    }
    PutOther(d1, c.tag, EntryOf(c), u);
  }

  /** Closing up the gap a moved entry leaves keeps the order of the others. */
  lemma ShiftKeepsOrder(m: nat, a: nat, b: nat, moved: bool)
    requires a != m && b != m
    ensures var a' := if moved && m < a then a - 1 else a;
            var b' := if moved && m < b then b - 1 else b;
            a' < b' <==> a < b
  {
  }

  /** Keys other than `moov` and the child's keep their order. */
  lemma AbsorbOrder(d: Table, c: Child, u: Tag, w: Tag)
    requires c.tag != MDAT ==> c.payload.Some?
    requires WellKeyed(d) && u != c.tag && u != MOOV && w != c.tag && w != MOOV
    requires IndexOf(d, u).Some? && IndexOf(d, w).Some?
    ensures IndexOf(Absorb(d, c), u).Some? && IndexOf(Absorb(d, c), w).Some?
    ensures IndexOf(Absorb(d, c), u).value < IndexOf(Absorb(d, c), w).value <==> IndexOf(d, u).value < IndexOf(d, w).value
  {
    AbsorbIndex(d, c, u);
    AbsorbIndex(d, c, w);
    var moved := Moved(d, c) != d;
    var m := if IndexOf(d, MOOV).Some? then IndexOf(d, MOOV).value else |d|;
    ShiftKeepsOrder(m, IndexOf(d, u).value, IndexOf(d, w).value, moved);
  }

  /** A child that is not an `mdat` leaves `moov` behind every key but its own. */
  lemma AbsorbMovesMoov(d: Table, c: Child, u: Tag)
    requires c.tag != MDAT && c.payload.Some?
    requires WellKeyed(d) && u != MOOV && u != c.tag && IndexOf(d, u).Some?
    requires IndexOf(Absorb(d, c), MOOV).Some?
    ensures IndexOf(Absorb(d, c), u).Some?
    ensures IndexOf(Absorb(d, c), u).value < IndexOf(Absorb(d, c), MOOV).value
  {
    var d1 := Moved(d, c);
    AbsorbIndex(d, c, u);
    if IndexOf(d, MOOV).Some? {
      MoveToEndSpec(d, MOOV, u);
      if c.tag == MOOV {
        PutSelf(d1, c.tag, EntryOf(c));
      } else {
        PutOther(d1, c.tag, EntryOf(c), MOOV);
      }
    } else if c.tag == MOOV {
      PutSelf(d1, c.tag, EntryOf(c));
    } else {
      PutOther(d1, c.tag, EntryOf(c), MOOV);
    }
  }

  // ---------------------------------------------------------------------
  // Reading the reference file

  /** Every child other than an `mdat` carries its payload. */
  predicate Payloads(cs: seq<Child>)
  {
    forall i :: 0 <= i < |cs| ==> (cs[i].tag != MDAT ==> cs[i].payload.Some?)
  }

  /** The children a walk that reads everything but `mdat` yields carry their payloads. */
  lemma {:induction false} DescribesPayloads(data: seq<Byte>, at: nat, cs: seq<Child>)
    requires Describes(data, at, cs, Except({MDAT}))
    ensures Payloads(cs)
    decreases |cs|
  {
    if cs != [] {
      DescribesPayloads(data, at + cs[0].size, cs[1..]);
      assert forall i :: 1 <= i < |cs| ==> cs[i] == cs[1..][i - 1];
    }
  }

  /** The loop of `repair_file` over the reference's top-level atoms: each
      child is stored in turn. */
  function CollectAll(cs: seq<Child>): Table
    requires Payloads(cs)
  {
    if cs == [] then []
    else
      var p := cs[..|cs| - 1];
      assert forall i :: 0 <= i < |p| ==> p[i] == cs[i];
      Absorb(CollectAll(p), cs[|cs| - 1])
  }

  /** The position of the first child with a tag. */
  function FirstWith(cs: seq<Child>, t: Tag): (r: Option<nat>)
    ensures r.Some? ==> r.value < |cs| && cs[r.value].tag == t
  {
    if cs == [] then None
    else
      match FirstWith(cs[..|cs| - 1], t)
      case Some(i) => Some(i)
      case None => if cs[|cs| - 1].tag == t then Some(|cs| - 1) else None
  }

  /** The position of the last child with a tag. */
  function LastWith(cs: seq<Child>, t: Tag): (r: Option<nat>)
    ensures r.Some? ==> r.value < |cs| && cs[r.value].tag == t
  {
    if cs == [] then None
    else if cs[|cs| - 1].tag == t then Some(|cs| - 1)
    else LastWith(cs[..|cs| - 1], t)
  }

  /** `FirstWith` finds the first child with the tag, and nothing when there is none. */
  lemma {:induction false} FirstWithSpec(cs: seq<Child>, t: Tag)
    ensures FirstWith(cs, t).Some? ==> forall i :: 0 <= i < FirstWith(cs, t).value ==> cs[i].tag != t
    ensures FirstWith(cs, t).None? ==> forall i :: 0 <= i < |cs| ==> cs[i].tag != t
    decreases |cs|
  {
    if cs != [] {
      var p := cs[..|cs| - 1];
      FirstWithSpec(p, t);
      assert forall i :: 0 <= i < |p| ==> p[i] == cs[i];
    }
  }

  /** `LastWith` finds the last child with the tag, and nothing when there is none. */
  lemma {:induction false} LastWithSpec(cs: seq<Child>, t: Tag)
    ensures LastWith(cs, t).Some? ==> forall i :: LastWith(cs, t).value < i < |cs| ==> cs[i].tag != t
    ensures LastWith(cs, t).None? ==> forall i :: 0 <= i < |cs| ==> cs[i].tag != t
    decreases |cs|
  {
    if cs != [] && cs[|cs| - 1].tag != t {
      var p := cs[..|cs| - 1];
      LastWithSpec(p, t);
      assert forall i :: 0 <= i < |p| ==> p[i] == cs[i];
    }
  }

  /** A tag occurs first somewhere exactly when it occurs last somewhere. */
  lemma FirstLastAgree(cs: seq<Child>, t: Tag)
    ensures FirstWith(cs, t).Some? <==> LastWith(cs, t).Some?
  {
    FirstWithSpec(cs, t);
    LastWithSpec(cs, t);
  }

  /** The collected table is well keyed, and each tag of the reference
      holds what was stored for its LAST child with that tag. */
  lemma {:induction false} CollectGet(cs: seq<Child>, t: Tag)
    requires Payloads(cs)
    ensures WellKeyed(CollectAll(cs))
    ensures Get(CollectAll(cs), t) ==
              if LastWith(cs, t).Some? then Ok(EntryOf(cs[LastWith(cs, t).value])) else Err(KeyError)
    decreases |cs|
  {
    if cs != [] {
      var p := cs[..|cs| - 1];
      var c := cs[|cs| - 1];
      assert forall i :: 0 <= i < |p| ==> p[i] == cs[i];
      CollectGet(p, t);
      AbsorbKeyed(CollectAll(p), c);
      if c.tag != t {
        AbsorbOthers(CollectAll(p), c, t);
      }
    }
  }

  /** A key is new to the table: after storing the child it sits last. */
  lemma AbsorbNew(d: Table, c: Child)
    requires c.tag != MDAT ==> c.payload.Some?
    requires WellKeyed(d) && IndexOf(d, c.tag).None?
    ensures IndexOf(Absorb(d, c), c.tag) == Some(|d|)
  {
    var d1 := Moved(d, c);
    if d1 != d {
      MoveToEndSpec(d, MOOV, c.tag);
    }
    PutSelf(d1, c.tag, EntryOf(c));
  }

  /** Keys other than `moov` come out in the order of their first child. */
  lemma {:induction false} CollectOrder(cs: seq<Child>, u: Tag, w: Tag)
    requires Payloads(cs) && u != w && u != MOOV && w != MOOV
    requires FirstWith(cs, u).Some? && FirstWith(cs, w).Some?
    ensures IndexOf(CollectAll(cs), u).Some? && IndexOf(CollectAll(cs), w).Some?
    ensures IndexOf(CollectAll(cs), u).value < IndexOf(CollectAll(cs), w).value <==>
              FirstWith(cs, u).value < FirstWith(cs, w).value
    decreases |cs|
  {
    var p := cs[..|cs| - 1];
    var c := cs[|cs| - 1];
    assert forall i :: 0 <= i < |p| ==> p[i] == cs[i];
    var d := CollectAll(p);
    FirstLastAgree(cs, u);
    FirstLastAgree(cs, w);
    CollectGet(cs, u);
    CollectGet(cs, w);
    CollectGet(p, u);
    CollectGet(p, w);
    FirstLastAgree(p, u);
    FirstLastAgree(p, w);
    if FirstWith(p, u).Some? && FirstWith(p, w).Some? {
      CollectOrder(p, u, w);
      AbsorbIndexAny(d, c, u);
      AbsorbIndexAny(d, c, w);
      var m := if IndexOf(d, MOOV).Some? then IndexOf(d, MOOV).value else |d|;
      ShiftKeepsOrder(m, IndexOf(d, u).value, IndexOf(d, w).value, Moved(d, c) != d);
    } else if FirstWith(p, u).Some? {
      AbsorbNew(d, c);
      AbsorbIndexAny(d, c, u);
    } else {
      AbsorbNew(d, c);
      AbsorbIndexAny(d, c, w);
    }
  }

  /** Where a key other than `moov` already in the table sits after storing
      the child, the child's own key included: it keeps its place, one
      earlier when `moov` moved from before it. */
  lemma AbsorbIndexAny(d: Table, c: Child, u: Tag)
    requires c.tag != MDAT ==> c.payload.Some?
    requires WellKeyed(d) && u != MOOV && IndexOf(d, u).Some?
    ensures IndexOf(Absorb(d, c), u) == Some(
              if Moved(d, c) != d && IndexOf(d, MOOV).value < IndexOf(d, u).value
              then IndexOf(d, u).value - 1 else IndexOf(d, u).value)
  {
    if u != c.tag {
      AbsorbIndex(d, c, u);
    } else {
      var d1 := Moved(d, c);
      if d1 != d {
        MoveToEndSpec(d, MOOV, u);
      }
      PutSelf(d1, c.tag, EntryOf(c));
    }
  }

  /** Some atom other than an `mdat` follows an `mdat` in the reference. */
  predicate MdatThenOther(cs: seq<Child>)
  {
    exists i, j :: 0 <= i < j < |cs| && cs[i].tag == MDAT && cs[j].tag != MDAT
  }

  /** The table's `moov` comes after its `mdat`. */
  predicate MoovBehindMdat(d: Table)
  {
    IndexOf(d, MDAT).Some? && IndexOf(d, MOOV).Some? && IndexOf(d, MDAT).value < IndexOf(d, MOOV).value
  }

  /** The moving of `moov` puts it behind the `mdat` exactly when some atom
      other than an `mdat` follows an `mdat` in the reference; a reference
      that ends in its `mdat` keeps its `moov` in front. */
  lemma {:induction false} CollectMoovBehind(cs: seq<Child>)
    requires Payloads(cs)
    requires IndexOf(CollectAll(cs), MDAT).Some? && IndexOf(CollectAll(cs), MOOV).Some?
    ensures MoovBehindMdat(CollectAll(cs)) <==> MdatThenOther(cs)
    decreases |cs|
  {
    var p := cs[..|cs| - 1];
    var c := cs[|cs| - 1];
    assert forall i :: 0 <= i < |p| ==> p[i] == cs[i];
    var d := CollectAll(p);
    CollectGet(p, MDAT);
    CollectGet(p, MOOV);
    LastWithSpec(p, MDAT);
    if c.tag != MDAT {
      if IndexOf(d, MDAT).Some? {
        var i := LastWith(p, MDAT).value;
        assert cs[i].tag == MDAT && cs[|cs| - 1].tag != MDAT;
        AbsorbMovesMoov(d, c, MDAT);
      } else {
        CollectGet(cs, MDAT);
        LastWithSpec(cs, MDAT);
      }
    } else if IndexOf(d, MDAT).Some? {
      PutSelf(d, MDAT, EntryOf(c));
      if IndexOf(d, MOOV).Some? {
        PutOther(d, MDAT, EntryOf(c), MOOV);
        CollectMoovBehind(p);
      } else {
        PutOther(d, MDAT, EntryOf(c), MOOV);
      }
      MdatThenOtherLast(cs);
    } else {
      PutSelf(d, MDAT, EntryOf(c));
      PutOther(d, MDAT, EntryOf(c), MOOV);
      MdatThenOtherLast(cs);
    }
  }

  /** An `mdat` at the end adds no atom that follows an `mdat`. */
  lemma MdatThenOtherLast(cs: seq<Child>)
    requires cs != [] && cs[|cs| - 1].tag == MDAT
    ensures MdatThenOther(cs) <==> MdatThenOther(cs[..|cs| - 1])
  {
    var p := cs[..|cs| - 1];
    assert forall i :: 0 <= i < |p| ==> p[i] == cs[i];
    if MdatThenOther(cs) {
      var i, j :| 0 <= i < j < |cs| && cs[i].tag == MDAT && cs[j].tag != MDAT;
      assert p[i].tag == MDAT && p[j].tag != MDAT;
    }
  }

  /** The first loop of `repair_file`: walk the reference's top-level atoms,
      reading all but `mdat` into memory. An error of the walk propagates. */
  function ReadReference(reference: seq<Byte>): (r: Result<Table>)
  {
    var s := Stream(reference, 0);
    var w := ChildLoop(MakeRoot(s), s, Except({MDAT}));
    if w.stop.Some? then Err(w.stop.value)
    else
      ChildLoopDescribes(MakeRoot(s), s, Except({MDAT}));
      DescribesPayloads(reference, 0, w.children);
      Ok(CollectAll(w.children))
  }

  /** What was read from the reference: its top-level atoms back to back
      from offset 0, and the table holding, for each tag, what was stored
      for the last of them with that tag. */
  lemma ReadReferenceSpec(reference: seq<Byte>, t: Tag)
    requires ReadReference(reference).Ok?
    ensures var s := Stream(reference, 0);
            var cs := ChildLoop(MakeRoot(s), s, Except({MDAT})).children;
            && Describes(reference, 0, cs, Except({MDAT}))
            && Payloads(cs)
            && ReadReference(reference) == Ok(CollectAll(cs))
            && WellKeyed(CollectAll(cs))
            && Get(CollectAll(cs), t) ==
                 if LastWith(cs, t).Some? then Ok(EntryOf(cs[LastWith(cs, t).value])) else Err(KeyError)
  {
    var s := Stream(reference, 0);
    var cs := ChildLoop(MakeRoot(s), s, Except({MDAT})).children;
    ChildLoopDescribes(MakeRoot(s), s, Except({MDAT}));
    DescribesPayloads(reference, 0, cs);
    CollectGet(cs, t);
  }

  /** A stored atom other than an `mdat` is a leaf holding the payload found
      in the reference; an `mdat` keeps its declared size. */
  lemma EntryOfDescribed(data: seq<Byte>, cs: seq<Child>, k: nat)
    requires Describes(data, 0, cs, Except({MDAT})) && k < |cs|
    ensures var c := cs[k];
            && c.begin + 8 <= |data| && c.size >= 8
            && (c.payload.Some? <==> c.tag != MDAT)
            && (c.tag != MDAT ==>
                  c.begin + c.size <= |data| &&
                  EntryOf(c) == Held(Leaf(c.tag, data[c.begin + 8..c.begin + c.size])))
            && (c.tag == MDAT ==> EntryOf(c) == Skipped(c.size))
  {
    DescribedAt(data, 0, cs, Except({MDAT}), k);
  }

  /** The `k`-th described child has the header and, when read, the payload
      found at its offset. */
  lemma {:induction false} DescribedAt(data: seq<Byte>, at: nat, cs: seq<Child>, want: Select, k: nat)
    requires Describes(data, at, cs, want) && k < |cs|
    ensures var c := cs[k];
            && c.begin + 8 <= |data| && c.size >= 8 && c.tag == data[c.begin + 4..c.begin + 8]
            && (c.payload.Some? <==> want.Reads(c.tag))
            && (c.payload.Some? ==> c.begin + c.size <= |data| && c.payload.value == data[c.begin + 8..c.begin + c.size])
    decreases k
  {
    if k > 0 {
      DescribedAt(data, at + cs[0].size, cs[1..], want, k - 1);
    }
  }

  // ---------------------------------------------------------------------
  // Finding the broken file's `mdat`

  /** The second loop of `repair_file`: the root's children are visited by
      header alone; the first one tagged `mdat` is kept, not skipped, and
      its header offset returned; any other is skipped. Running out of
      children finds nothing. */
  function ScanMdat(r: Reader, s: Stream): (res: Result<Option<nat>>)
    decreases Unread(r)
  {
    if r.bytesRead < r.size then
      var (c, s1) :- ReadHeader(Fresh, s);
      if c.tag == Some(MDAT) then Ok(Some(c.begin))
      else
        var (c2, s2) :- SkipRest(c, s1);
        ScanMdat(r.(bytesRead := r.bytesRead + c2.bytesRead), s2)
    else Ok(None)
  }

  /** The position of the first child with a tag, in a walk. */
  function FirstTagged(cs: seq<Child>, t: Tag): (r: Option<nat>)
    ensures r.Some? ==> r.value < |cs| && cs[r.value].tag == t
    ensures r.Some? ==> forall i :: 0 <= i < r.value ==> cs[i].tag != t
    ensures r.None? ==> forall i :: 0 <= i < |cs| ==> cs[i].tag != t
  {
    if cs == [] then None
    else if cs[0].tag == t then Some(0)
    else
      match FirstTagged(cs[1..], t)
      case None => None
      case Some(j) => Some(j + 1)
  }

  /** Whether the file holds a complete `mdat` header at the position. */
  predicate MdatHeaderAt(s: Stream)
  {
    s.Available() >= 8 && s.data[s.pos + 4..s.pos + 8] == MDAT
  }

  /** What the scan finds is a complete `mdat` header within the file. */
  lemma {:induction false} ScanMdatHeader(r: Reader, s: Stream)
    requires ScanMdat(r, s).Ok? && ScanMdat(r, s).value.Some?
    ensures MdatHeaderAt(Stream(s.data, ScanMdat(r, s).value.value))
    ensures ScanMdat(r, s).value.value + 8 <= |s.data|
    decreases Unread(r)
  {
    var (c, s1) := ReadHeader(Fresh, s).value;
    if c.tag != Some(MDAT) {
      var (c2, s2) := SkipRest(c, s1).value;
      ScanMdatHeader(r.(bytesRead := r.bytesRead + c2.bytesRead), s2);
    }
  }

  /** A scan step past a child that is not an `mdat` is the walk's step. */
  lemma ScanMdatSkips(r: Reader, s: Stream, c: Child, s1: Stream)
    requires r.bytesRead < r.size && NextChild(s, Only({})) == Ok((c, s1)) && c.tag != MDAT
    ensures ScanMdat(r, s) == ScanMdat(r.(bytesRead := r.bytesRead + c.size), s1)
  {
    var (c0, t) := ReadHeader(Fresh, s).value;
    assert c0.tag == Some(c.tag) && c0.size == c.size by {
      assert s.data[s.pos..s.pos + 8][..4] == s.data[s.pos..s.pos + 4];
    }
    assert SkipRest(c0, t) == Ok((c0.(bytesRead := c.size), s1));
  }

  /** A scan step at an `mdat` header finds it, whatever its declared size. */
  lemma ScanMdatFinds(r: Reader, s: Stream)
    requires r.bytesRead < r.size && MdatHeaderAt(s)
    ensures ScanMdat(r, s) == Ok(Some(s.pos))
  {
  }

  /** Where the walk fails, the scan fails with the same error unless the
      header there is an `mdat`. */
  lemma ScanMdatStops(r: Reader, s: Stream)
    requires r.bytesRead < r.size && NextChild(s, Only({})).Err? && !MdatHeaderAt(s)
    ensures ScanMdat(r, s) == Err(NextChild(s, Only({})).error)
  {
    ChildStepIsNextChild(s, Only({}));
  }

  /** The scan finds the first `mdat` among the top-level atoms a header-only
      walk yields. When the walk stops early, the atom it stopped at is
      still found if it has an `mdat` header, since the scan does not skip
      it; otherwise the scan fails with the walk's error. */
  lemma {:induction false} ScanMdatWalk(r: Reader, s: Stream)
    requires r.isRoot
    ensures var w := ChildLoop(r, s, Only({}));
            ScanMdat(r, s) ==
              match FirstTagged(w.children, MDAT)
              case Some(k) => Ok(Some(w.children[k].begin))
              case None =>
                if w.stop.None? then Ok(None)
                else if MdatHeaderAt(w.stream) then Ok(Some(w.stream.pos))
                else Err(w.stop.value)
    decreases Unread(r)
  {
    var step := NextChild(s, Only({}));
    if r.bytesRead < r.size {
      if step.Ok? {
        var (c, s1) := step.value;
        var r1 := r.(bytesRead := r.bytesRead + c.size);
        ChildLoopCons(r, s, Only({}), c, s1);
        if c.tag == MDAT {
          ScanMdatFinds(r, s);
        } else {
          ScanMdatSkips(r, s, c, s1);
          ScanMdatWalk(r1, s1);
          assert ChildLoop(r, s, Only({})).children[1..] == ChildLoop(r1, s1, Only({})).children;
        }
      } else if MdatHeaderAt(s) {
        ScanMdatFinds(r, s);
      } else {
        ScanMdatStops(r, s);
      }
    }
  }

  // ---------------------------------------------------------------------
  // Fixing the metadata

  /** The `mdat` size of a table value: a reference `mdat` has one, an atom
      read into memory does not. */
  function SizeOf(e: Entry): (r: Result<nat>)
    ensures r.Ok? <==> e.Skipped?
  {
    if e.Skipped? then Ok(e.size) else Err(AttributeError)
  }

  /** The atom of a table value: a `moov` is read into memory, so a value
      that is still a reader has no tree to fix. */
  function AtomOf(e: Entry): (r: Result<AtomD>)
    ensures r.Ok? <==> e.Held?
  {
    if e.Held? then Ok(e.atom) else Err(AttributeError)
  }

  /** The `do_fix_metadata` branch: the scale factor is the broken `mdat`'s
      size over the reference `mdat`'s declared size, and the table's `moov`
      is fixed for it in place. */
  function Fix(d: Table, mdatSize: nat): Result<Table>
  {
    var e :- Get(d, MDAT);
    var den :- SizeOf(e);
    if den == 0 then Err(ZeroDivisionError)
    else
      var m :- Get(d, MOOV);
      var moov :- AtomOf(m);
      var fixed :- Metadata.FixMetadata(Scale(mdatSize, den), moov);
      Ok(Put(d, MOOV, Held(fixed)))
  }

  /** Fixing fails exactly when the table lacks an `mdat` or a `moov`, when
      the reference `mdat`'s size is zero or when `fix_metadata` fails. */
  lemma FixOutcome(d: Table, mdatSize: nat)
    requires WellKeyed(d)
    ensures Fix(d, mdatSize).Ok? <==>
              && Get(d, MDAT).Ok? && Get(d, MOOV).Ok?
              && Get(d, MDAT).value.Skipped? && Get(d, MDAT).value.size > 0
              && Get(d, MOOV).value.Held?
              && Metadata.FixMetadata(Scale(mdatSize, Get(d, MDAT).value.size), Get(d, MOOV).value.atom).Ok?
  {
  }

  /** The fixed table has the same keys in the same places, the fixed `moov`
      under its key and every other value unchanged. */
  lemma FixSpec(d: Table, mdatSize: nat, u: Tag)
    requires WellKeyed(d) && Fix(d, mdatSize).Ok?
    ensures var r := Fix(d, mdatSize).value;
            && DistinctKeys(r) && |r| == |d| && IndexOf(r, u) == IndexOf(d, u)
            && Get(r, MOOV) == Ok(Held(Metadata.FixMetadata(Scale(mdatSize, Get(d, MDAT).value.size), Get(d, MOOV).value.atom).value))
            && (u != MOOV ==> Get(r, u) == Get(d, u))
  {
    var moov := Get(d, MOOV).value;
    var fixed := Metadata.FixMetadata(Scale(mdatSize, Get(d, MDAT).value.size), moov.atom).value;
    assert Fix(d, mdatSize).value == Put(d, MOOV, Held(fixed));
    PutSelf(d, MOOV, Held(fixed));
    if u != MOOV {
      PutOther(d, MOOV, Held(fixed), u);
    }
  }

  // ---------------------------------------------------------------------
  // Writing the output

  /** Writes chunk after chunk. */
  function WriteChunks(k: Sink, chunks: seq<seq<Byte>>): (r: Result<Sink>)
    ensures r.Ok? ==> |r.value.frames| == |k.frames|
    decreases |chunks|
  {
    if chunks == [] then Ok(k)
    else
      var k1 :- Write(k, chunks[0]);
      WriteChunks(k1, chunks[1..])
  }

  /** Writing chunk by chunk has the effect of writing them joined in one piece. */
  lemma {:induction false} WriteChunksConcat(k: Sink, chunks: seq<seq<Byte>>)
    requires Room(k.frames, 0)
    ensures WriteChunks(k, chunks) == Write(k, Concat(chunks))
    decreases |chunks|
  {
    if chunks == [] {
      AdvanceZero(k.frames);
      assert k.out + [] == k.out;
    } else {
      var a := chunks[0];
      var rest := Concat(chunks[1..]);
      AdvanceTwice(k.frames, |a|, |rest|);
      AdvanceTwice(k.frames, |a|, 0);
      if Room(k.frames, |a|) {
        WriteChunksConcat(Sink(Advance(k.frames, |a|), k.out + a), chunks[1..]);
        assert k.out + a + rest == k.out + (a + rest);
      }
    }
  }

  /** The chunk size with which the broken `mdat` is copied. */
  const CHUNK: nat := 1024

  /** The `mdat` branch of the output loop: a writer for an `mdat` of the
      adjusted size is opened, the broken file's `mdat` reader is iterated
      in chunks from just past its header, and each chunk is written. */
  function WriteMdat(k: Sink, broken: seq<Byte>, begin: nat, mdatSize: nat): Result<Sink>
  {
    var k1 :- Open(k, mdatSize, MDAT);
    var (chunks, _, _) :- IterData(Reader(false, mdatSize, Some(MDAT), 8, begin), Stream(broken, begin + 8), CHUNK, false);
    Exit(WriteChunks(k1, chunks))
  }

  /** The bytes that stand for the broken `mdat` in the output: a header with
      the adjusted size, then everything after the broken file's header. */
  function MdatPiece(broken: seq<Byte>, begin: nat): seq<Byte>
    requires begin + 8 <= |broken| && |broken| - begin < U32_LIMIT
  {
    U32(|broken| - begin) + MDAT + broken[begin + 8..]
  }

  /** With the size the program computes (the file length minus the header
      offset), the copy is exactly the rest of the broken file under a
      header declaring that size; it fails only when the size does not fit
      the u32 header. */
  lemma WriteMdatSpec(out: seq<Byte>, broken: seq<Byte>, begin: nat)
    requires begin + 8 <= |broken|
    ensures var n := |broken| - begin;
            && (WriteMdat(FileSink(out), broken, begin, n).Ok? <==> n < U32_LIMIT)
            && (n >= U32_LIMIT ==> WriteMdat(FileSink(out), broken, begin, n) == Err(StructError))
            && (n < U32_LIMIT ==> WriteMdat(FileSink(out), broken, begin, n) == Ok(FileSink(out + MdatPiece(broken, begin))))
  {
    var n := |broken| - begin;
    var k := FileSink(out);
    if n < U32_LIMIT {
      var k1 := Open(k, n, MDAT).value;
      var r := Reader(false, n, Some(MDAT), 8, begin);
      var s := Stream(broken, begin + 8);
      IterDataChunks(r, s, CHUNK);
      var payload := broken[begin + 8..begin + 8 + (n - 8)];
      assert payload == broken[begin + 8..];
      ChunksPartition(payload, CHUNK);
      WriteChunksConcat(k1, Chunks(payload, CHUNK));
      DeclaredSizeEnforced(k, n, MDAT, payload);
      assert Advance([], n) == [];
      assert out + U32(n) + MDAT + payload == out + MdatPiece(broken, begin);
    }
  }

  /** One value of the table written: the `mdat` from the broken file, any
      other atom by `write`. */
  function WriteEntry(k: Sink, e: Entry, broken: seq<Byte>, begin: nat, mdatSize: nat): Result<Sink>
  {
    if EntryTag(e) == MDAT then WriteMdat(k, broken, begin, mdatSize)
    else WriteAtom(k, e.atom)
  }

  /** The output loop of `repair_file`: the table's values in order. */
  function WriteEntries(k: Sink, d: Table, broken: seq<Byte>, begin: nat, mdatSize: nat): Result<Sink>
    decreases |d|
  {
    if d == [] then Ok(k)
    else
      var k1 :- WriteEntry(k, d[0].1, broken, begin, mdatSize);
      WriteEntries(k1, d[1..], broken, begin, mdatSize)
  }

  /** A value can be written: its size fits a u32 header. */
  predicate EntryOk(e: Entry, broken: seq<Byte>, begin: nat)
  {
    if EntryTag(e) == MDAT then |broken| - begin < U32_LIMIT else Size(e.atom) < U32_LIMIT
  }

  /** The bytes a value contributes to the output. */
  function EntryBytes(e: Entry, broken: seq<Byte>, begin: nat): seq<Byte>
    requires begin + 8 <= |broken| && EntryOk(e, broken, begin)
  {
    if EntryTag(e) == MDAT then MdatPiece(broken, begin) else Serialize(e.atom)
  }

  /** Every value of the table can be written. */
  predicate Writable(d: Table, broken: seq<Byte>, begin: nat)
  {
    forall i :: 0 <= i < |d| ==> EntryOk(d[i].1, broken, begin)
  }

  /** The output as it should be: each value's bytes in table order, the
      broken `mdat` in place of the reference's. */
  function Emitted(d: Table, broken: seq<Byte>, begin: nat): seq<Byte>
    requires begin + 8 <= |broken| && Writable(d, broken, begin)
    decreases |d|
  {
    if d == [] then []
    else
      WritableCons(d, broken, begin);
      EntryBytes(d[0].1, broken, begin) + Emitted(d[1..], broken, begin)
  }

  lemma WritableCons(d: Table, broken: seq<Byte>, begin: nat)
    requires d != []
    ensures Writable(d, broken, begin) <==> EntryOk(d[0].1, broken, begin) && Writable(d[1..], broken, begin)
  {
    assert forall i :: 0 <= i < |d[1..]| ==> d[1..][i] == d[i + 1];
  }

  lemma EmittedCons(d: Table, broken: seq<Byte>, begin: nat)
    requires begin + 8 <= |broken| && d != [] && Writable(d, broken, begin)
    ensures EntryOk(d[0].1, broken, begin) && Writable(d[1..], broken, begin)
    ensures Emitted(d, broken, begin) == EntryBytes(d[0].1, broken, begin) + Emitted(d[1..], broken, begin)
  {
    WritableCons(d, broken, begin);
  }

  /** One value written on the bare file: it fails exactly when it cannot be
      written and otherwise appends its bytes. */
  lemma WriteEntryOutcome(out: seq<Byte>, e: Entry, broken: seq<Byte>, begin: nat)
    requires begin + 8 <= |broken|
    ensures var w := WriteEntry(FileSink(out), e, broken, begin, |broken| - begin);
            && (w.Ok? <==> EntryOk(e, broken, begin))
            && (EntryOk(e, broken, begin) ==> w == Ok(FileSink(out + EntryBytes(e, broken, begin))))
  {
    if EntryTag(e) == MDAT {
      WriteMdatSpec(out, broken, begin);
    } else {
      WriteAtomSerializes(FileSink(out), e.atom);
      assert Advance([], Size(e.atom)) == [];
    }
  }

  /** The output loop on a non-empty table: the first value, then the rest. */
  lemma WriteEntriesCons(out: seq<Byte>, d: Table, broken: seq<Byte>, begin: nat)
    requires begin + 8 <= |broken| && d != []
    ensures var n := |broken| - begin;
            var w := WriteEntries(FileSink(out), d, broken, begin, n);
            && (!EntryOk(d[0].1, broken, begin) ==> w.Err?)
            && (EntryOk(d[0].1, broken, begin) ==>
                  w == WriteEntries(FileSink(out + EntryBytes(d[0].1, broken, begin)), d[1..], broken, begin, n))
  {
    WriteEntryOutcome(out, d[0].1, broken, begin);
  }

  /** The output loop succeeds exactly when every value can be written. */
  lemma {:induction false} WriteEntriesOk(out: seq<Byte>, d: Table, broken: seq<Byte>, begin: nat)
    requires begin + 8 <= |broken|
    ensures WriteEntries(FileSink(out), d, broken, begin, |broken| - begin).Ok? <==> Writable(d, broken, begin)
    decreases |d|
  {
    if d != [] {
      var e := d[0].1;
      WritableCons(d, broken, begin);
      WriteEntriesCons(out, d, broken, begin);
      if EntryOk(e, broken, begin) {
        WriteEntriesOk(out + EntryBytes(e, broken, begin), d[1..], broken, begin);
      }
    }
  }

  /** A successful output loop appends exactly `Emitted` to the file. */
  lemma {:induction false} WriteEntriesSpec(out: seq<Byte>, d: Table, broken: seq<Byte>, begin: nat)
    requires begin + 8 <= |broken| && Writable(d, broken, begin)
    ensures WriteEntries(FileSink(out), d, broken, begin, |broken| - begin) == Ok(FileSink(out + Emitted(d, broken, begin)))
    decreases |d|
  {
    if d == [] {
      assert out + [] == out;
    } else {
      WritableCons(d, broken, begin);
      var piece := EntryBytes(d[0].1, broken, begin);
      WriteEntriesSpec(out + piece, d[1..], broken, begin);
      WriteEntriesStep(out, d, broken, begin);
    }
  }

  /** The step of `WriteEntriesSpec`: the first value's bytes, then what the
      rest of the loop appends. */
  lemma WriteEntriesStep(out: seq<Byte>, d: Table, broken: seq<Byte>, begin: nat)
    requires begin + 8 <= |broken| && d != [] && Writable(d, broken, begin)
    requires EntryOk(d[0].1, broken, begin) && Writable(d[1..], broken, begin)
    requires var piece := EntryBytes(d[0].1, broken, begin);
             WriteEntries(FileSink(out + piece), d[1..], broken, begin, |broken| - begin) ==
               Ok(FileSink(out + piece + Emitted(d[1..], broken, begin)))
    ensures WriteEntries(FileSink(out), d, broken, begin, |broken| - begin) == Ok(FileSink(out + Emitted(d, broken, begin)))
  {
    var piece := EntryBytes(d[0].1, broken, begin);
    var n := |broken| - begin;
    calc {
      WriteEntries(FileSink(out), d, broken, begin, n);
      { WriteEntriesCons(out, d, broken, begin); }
      WriteEntries(FileSink(out + piece), d[1..], broken, begin, n);
      Ok(FileSink(out + piece + Emitted(d[1..], broken, begin)));
      { AppendEmitted(out, d, broken, begin); }
      Ok(FileSink(out + Emitted(d, broken, begin)));
    }
  }

  lemma AppendEmitted(out: seq<Byte>, d: Table, broken: seq<Byte>, begin: nat)
    requires begin + 8 <= |broken| && d != [] && Writable(d, broken, begin)
    ensures EntryOk(d[0].1, broken, begin) && Writable(d[1..], broken, begin)
    ensures out + EntryBytes(d[0].1, broken, begin) + Emitted(d[1..], broken, begin) == out + Emitted(d, broken, begin)
  {
    EmittedCons(d, broken, begin);
    var piece := EntryBytes(d[0].1, broken, begin);
    assert out + piece + Emitted(d[1..], broken, begin) == out + (piece + Emitted(d[1..], broken, begin));
  }

  // ---------------------------------------------------------------------
  // The whole repair

  /** The table as it is written: fixed when asked to. */
  function Prepared(d: Table, mdatSize: nat, fixMetadata: bool): Result<Table>
  {
    if fixMetadata then Fix(d, mdatSize) else Ok(d)
  }

  /** The output loop on an empty file, and exit code 0. */
  function Output(d: Table, broken: seq<Byte>, begin: nat): Result<(int, seq<Byte>)>
    requires begin + 8 <= |broken|
  {
    var k :- WriteEntries(FileSink([]), d, broken, begin, |broken| - begin);
    Ok((0, k.out))
  }

  /** `repair_file(reference, broken, output, do_fix_metadata)`: the exit
      code and the bytes of the output file, which starts empty. */
  function RepairFile(reference: seq<Byte>, broken: seq<Byte>, fixMetadata: bool): Result<(int, seq<Byte>)>
  {
    var d :- ReadReference(reference);
    var s := Stream(broken, 0);
    var found :- ScanMdat(MakeRoot(s), s);
    if found.None? then Ok((1, []))
    else
      ScanMdatHeader(MakeRoot(s), s);
      Finish(d, broken, found.value, fixMetadata)
  }

  /** The repair once the `mdat` is found at `begin`: the table is prepared
      and written out. */
  function Finish(d: Table, broken: seq<Byte>, begin: nat, fixMetadata: bool): Result<(int, seq<Byte>)>
    requires begin + 8 <= |broken|
  {
    var d2 :- Prepared(d, |broken| - begin, fixMetadata);
    Output(d2, broken, begin)
  }

  /** A broken file without a top-level `mdat` gives exit code 1 and no
      output; a failure reading either file is the failure of the repair. */
  lemma RepairFileEarlyExits(reference: seq<Byte>, broken: seq<Byte>, fixMetadata: bool)
    ensures ReadReference(reference).Err? ==> RepairFile(reference, broken, fixMetadata) == Err(ReadReference(reference).error)
    ensures var s := Stream(broken, 0);
            ReadReference(reference).Ok? && ScanMdat(MakeRoot(s), s).Err? ==>
              RepairFile(reference, broken, fixMetadata) == Err(ScanMdat(MakeRoot(s), s).error)
    ensures var s := Stream(broken, 0);
            ReadReference(reference).Ok? && ScanMdat(MakeRoot(s), s) == Ok(None) ==>
              RepairFile(reference, broken, fixMetadata) == Ok((1, []))
  {
  }

  /** Writing a table succeeds exactly when every value can be written, with
      exit code 0 and `Emitted` as the whole output. */
  lemma OutputSpec(d: Table, broken: seq<Byte>, begin: nat)
    requires begin + 8 <= |broken|
    ensures Output(d, broken, begin).Ok? <==> Writable(d, broken, begin)
    ensures Writable(d, broken, begin) ==> Output(d, broken, begin) == Ok((0, Emitted(d, broken, begin)))
  {
    WriteEntriesOk([], d, broken, begin);
    if Writable(d, broken, begin) {
      WriteEntriesSpec([], d, broken, begin);
      assert [] + Emitted(d, broken, begin) == Emitted(d, broken, begin);
    }
  }

  /** Once both files are read and the `mdat` found, the repair is the
      prepared table written out. */
  lemma RepairFileFound(reference: seq<Byte>, broken: seq<Byte>, fixMetadata: bool, begin: nat)
    requires ReadReference(reference).Ok?
    requires var s := Stream(broken, 0); ScanMdat(MakeRoot(s), s) == Ok(Some(begin))
    ensures begin + 8 <= |broken|
    ensures RepairFile(reference, broken, fixMetadata) == Finish(ReadReference(reference).value, broken, begin, fixMetadata)
  {
    ScanMdatHeader(MakeRoot(Stream(broken, 0)), Stream(broken, 0));
  }

  /** Once the `mdat` is found, the repair fails exactly when preparing the
      table fails or some value cannot be written; otherwise the output is
      the prepared table written in order with the broken file's `mdat` in
      place of the reference's, and the exit code is 0. */
  lemma FinishSpec(d: Table, broken: seq<Byte>, begin: nat, fixMetadata: bool)
    requires begin + 8 <= |broken|
    ensures var d2 := Prepared(d, |broken| - begin, fixMetadata);
            && (Finish(d, broken, begin, fixMetadata).Ok? <==> d2.Ok? && Writable(d2.value, broken, begin))
            && (d2.Ok? && Writable(d2.value, broken, begin) ==>
                  Finish(d, broken, begin, fixMetadata) == Ok((0, Emitted(d2.value, broken, begin))))
  {
    var d2 := Prepared(d, |broken| - begin, fixMetadata);
    if d2.Ok? {
      OutputSpec(d2.value, broken, begin);
    }
  }

  /** When the broken file has an `mdat` at `begin`, the output is the
      (fixed, if asked) reference table written in order with the broken
      file's `mdat` in place of the reference's, and exit code 0; it fails
      exactly when fixing fails or some value does not fit a u32 header. */
  lemma RepairFileOutput(reference: seq<Byte>, broken: seq<Byte>, fixMetadata: bool, begin: nat)
    requires ReadReference(reference).Ok?
    requires var s := Stream(broken, 0); ScanMdat(MakeRoot(s), s) == Ok(Some(begin))
    ensures begin + 8 <= |broken|
    ensures var d2 := Prepared(ReadReference(reference).value, |broken| - begin, fixMetadata);
            && (RepairFile(reference, broken, fixMetadata).Ok? <==> d2.Ok? && Writable(d2.value, broken, begin))
            && (d2.Ok? && Writable(d2.value, broken, begin) ==>
                  RepairFile(reference, broken, fixMetadata) == Ok((0, Emitted(d2.value, broken, begin))))
  {
    RepairFileFound(reference, broken, fixMetadata, begin);
    FinishSpec(ReadReference(reference).value, broken, begin, fixMetadata);
  }
}
