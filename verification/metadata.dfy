/** `fix_metadata` (movrepair.py:60-169): the edits the repair makes to the
    reference file's `moov` atom, scaling durations and extending the chunk
    offset and sample size tables by the ratio of the broken file's `mdat`
    size to the reference's.

    The program edits sub-atoms through references into the `moov` tree;
    here every edit returns the whole tree with the sub-atom at a position
    changed (`Patch`, `Replace`). */
module Metadata {
  import opened Wrappers
  import opened Bytes
  import opened AtomTree
  import Codec = RecordCodec
  import Catalog
  import opened TableRepair

  const MVHD: Tag := Ascii("mvhd")
  const TRAK: Tag := Ascii("trak")
  const TKHD: Tag := Ascii("tkhd")
  const EDTS: Tag := Ascii("edts")
  const ELST: Tag := Ascii("elst")
  const MDIA: Tag := Ascii("mdia")
  const MDHD: Tag := Ascii("mdhd")
  const MINF: Tag := Ascii("minf")
  const VMHD: Tag := Ascii("vmhd")
  const STBL: Tag := Ascii("stbl")
  const STSD: Tag := Ascii("stsd")
  const STTS: Tag := Ascii("stts")
  const STCO: Tag := Ascii("stco")
  const STSZ: Tag := Ascii("stsz")

  /** The bytes literal `b'tmcd'` the sample description's format is compared with. */
  const Timecode: Codec.Value := Codec.Blob(Ascii("tmcd"))

  // ---------------------------------------------------------------------
  // Access to the tree

  /** The atom a position found by a search refers to. */
  function AtomAt(t: AtomD, p: Pos): (r: Result<AtomD>)
    ensures r.Ok? <==> At(t, p).Some?
    ensures r.Ok? ==> r.value == At(t, p).value
  {
    match At(t, p)
    case Some(a) => Ok(a)
    case None => Err(IndexError)
  }

  /** `atom.find_atoms(*path)[0]`: the search, then its first result. */
  function FindFirst(a: AtomD, path: seq<Tag>): (r: Result<(AtomD, Pos)>)
    ensures Find(a, path).Err? ==> r == Err(Find(a, path).error)
    ensures Find(a, path).Ok? && Find(a, path).value.1 == [] ==> r == Err(IndexError)
    ensures r.Ok? ==> Find(a, path).Ok? && Find(a, path).value.1 != [] &&
                      r.value == (Find(a, path).value.0, Find(a, path).value.1[0])
  {
    var (t, ps) :- Find(a, path);
    if ps == [] then Err(IndexError) else Ok((t, ps[0]))
  }

  /** The tree with the sub-atom at `p` replaced: what the program's
      in-place changes to a sub-atom look like from the atom above it. */
  function Replace(t: AtomD, p: Pos, x: AtomD): (r: Result<AtomD>)
    decreases |p|
  {
    if p == [] then Ok(x)
    else if t.Leaf? || p[0] >= |t.atoms| then Err(IndexError)
    else
      var y :- Replace(t.atoms[p[0]], p[1..], x);
      Ok(Node(t.tag, t.atoms[p[0] := y]))
  }

  /** Replacing an atom that exists puts `x` at its position and leaves every
      other position of the same depth as it was. */
  lemma {:induction false} ReplaceSpec(t: AtomD, p: Pos, x: AtomD, q: Pos)
    requires At(t, p).Some?
    ensures Replace(t, p, x).Ok?
    ensures At(Replace(t, p, x).value, p) == Some(x)
    ensures |q| == |p| && q != p ==> At(Replace(t, p, x).value, q) == At(t, q)
    decreases |p|
  {
    if p != [] {
      var i := p[0];
      ReplaceSpec(t.atoms[i], p[1..], x, if q != [] then q[1..] else []);
      var r := Replace(t, p, x).value;
      if |q| == |p| && q != p && q[0] < |t.atoms| {
        if q[0] == i {
          assert q[1..] != p[1..] by {
            assert q == [q[0]] + q[1..] && p == [p[0]] + p[1..];
          }
        }
      }
    }
  }

  /** One pass over the atoms a search found, in order: each gets the edit
      computed from its own bytes, through `bytes.edit()`. */
  function EditEach(t: AtomD, ps: seq<Pos>, f: AtomD -> Result<Edit>): Result<AtomD>
    decreases |ps|
  {
    if ps == [] then Ok(t)
    else
      var a :- AtomAt(t, ps[0]);
      var e :- f(a);
      var t1 :- Patch(t, ps[0], e);
      EditEach(t1, ps[1..], f)
  }

  /** Positions of one depth that are all different: the results of one search. */
  predicate Disjoint(ps: seq<Pos>, n: nat)
  {
    && (forall k :: 0 <= k < |ps| ==> |ps[k]| == n)
    && (forall k, l :: 0 <= k < l < |ps| ==> ps[k] != ps[l])
  }

  /** The edit `f` chooses for an atom applies to it. */
  predicate Editable(a: AtomD, f: AtomD -> Result<Edit>)
  {
    f(a).Ok? && ApplyEdit(a, f(a).value).Ok?
  }

  /** A pass over found atoms gives every one of them the edit chosen from
      its bytes before the pass, and leaves every other atom of the same
      depth as it was. */
  lemma {:induction false} EditEachSpec(t: AtomD, ps: seq<Pos>, f: AtomD -> Result<Edit>, q: Pos)
    requires Disjoint(ps, |q|) && EditEach(t, ps, f).Ok?
    ensures q in ps ==> At(t, q).Some? && Editable(At(t, q).value, f) &&
                        At(EditEach(t, ps, f).value, q) == Some(ApplyEdit(At(t, q).value, f(At(t, q).value).value).value)
    ensures q !in ps ==> At(EditEach(t, ps, f).value, q) == At(t, q)
    decreases |ps|
  {
    if ps != [] {
      var e := f(At(t, ps[0]).value).value;
      var t1 := Patch(t, ps[0], e).value;
      assert Disjoint(ps[1..], |q|);
      EditEachSpec(t1, ps[1..], f, q);
      PatchFound(t, ps[0], e);
      if q == ps[0] {
        assert q !in ps[1..];
      } else {
        PatchElsewhere(t, ps[0], e, q);
      }
    }
  }

  /** The pass fails exactly when one of the atoms found is missing or its
      edit cannot be made: no edit made earlier in the pass changes that. */
  lemma {:induction false} EditEachSucceeds(t: AtomD, ps: seq<Pos>, f: AtomD -> Result<Edit>, n: nat)
    requires Disjoint(ps, n)
    ensures EditEach(t, ps, f).Ok? <==> forall k :: 0 <= k < |ps| ==> At(t, ps[k]).Some? && Editable(At(t, ps[k]).value, f)
    decreases |ps|
  {
    if ps != [] {
      assert Disjoint(ps[1..], n);
      if EditEach(t, ps, f).Ok? {
        forall k | 0 <= k < |ps|
          ensures At(t, ps[k]).Some? && Editable(At(t, ps[k]).value, f)
        {
          EditEachSpec(t, ps, f, ps[k]);
        }
      } else if At(t, ps[0]).Some? && Editable(At(t, ps[0]).value, f) {
        var e := f(At(t, ps[0]).value).value;
        PatchAt(t, ps[0], e);
        var t1 := Patch(t, ps[0], e).value;
        EditEachSucceeds(t1, ps[1..], f, n);
        var k :| 0 <= k < |ps[1..]| && !(At(t1, ps[1..][k]).Some? && Editable(At(t1, ps[1..][k]).value, f));
        PatchElsewhere(t, ps[0], e, ps[k + 1]);
      }
    }
  }

  /** A patch that succeeds was made at an atom that exists. */
  lemma {:induction false} PatchFound(t: AtomD, p: Pos, e: Edit)
    requires Patch(t, p, e).Ok?
    ensures At(t, p).Some? && ApplyEdit(At(t, p).value, e).Ok?
    ensures At(Patch(t, p, e).value, p) == Some(ApplyEdit(At(t, p).value, e).value)
    decreases |p|
  {
    if p != [] {
      PatchFound(t.atoms[p[0]], p[1..], e);
    }
  }

  // ---------------------------------------------------------------------
  // Durations

  /** `get_new_duration(atom)`: the time scale and duration are the two
      u32 at bytes 12..20 of the payload; the log line divides by the time
      scale; the new duration is the old one scaled and rounded down. */
  function NewDuration(sc: Scale, a: AtomD): (r: Result<nat>)
    requires sc.den > 0
    ensures r.Ok? <==> a.Leaf? && |a.data| >= 20 && ReadU32(a.data[12..16]) != 0
    ensures a.Node? ==> r == Err(TypeError)
    ensures a.Leaf? && |a.data| < 20 ==> r == Err(StructError)
    ensures a.Leaf? && |a.data| >= 20 && ReadU32(a.data[12..16]) == 0 ==> r == Err(ZeroDivisionError)
    ensures r.Ok? ==> var prev := ReadU32(a.data[16..20]);
                      r.value * sc.den <= sc.num * prev < (r.value + 1) * sc.den
  {
    var data :- DataOf(a);
    var field := Slice(data, 12, 20);
    if |field| != 8 then Err(StructError)
    else
      assert field[..4] == data[12..16] && field[4..] == data[16..20];
      var timeScale := ReadU32(field[..4]);
      var duration := ReadU32(field[4..]);
      if timeScale == 0 then Err(ZeroDivisionError)
      else Ok(ScaleFloor(sc, duration))
  }

  /** `struct.pack('>I', v)`. */
  function PackU32(v: nat): (r: Result<seq<Byte>>)
    ensures r.Ok? <==> v < U32_LIMIT
    ensures r.Err? ==> r.error == StructError
    ensures r.Ok? ==> |r.value| == 4 && ReadU32(r.value) == v
  {
    if v < U32_LIMIT then (ReadU32OfU32(v); Ok(U32(v))) else Err(StructError)
  }

  /** The new payload of an `elst` atom: version and flags, one entry, the
      new duration, media time 0, and the rate. */
  function ElstPayload(flag: nat, dur: nat, rate: nat): (b: seq<Byte>)
    requires flag < U32_LIMIT && dur < U32_LIMIT && rate < U32_LIMIT
  {
    U32(flag) + U32(1) + U32(dur) + U32(0) + U32(rate)
  }

  /** The payload is five u32: reading them back gives the values packed. */
  lemma ElstPayloadReads(flag: nat, dur: nat, rate: nat)
    requires flag < U32_LIMIT && dur < U32_LIMIT && rate < U32_LIMIT
    ensures var b := ElstPayload(flag, dur, rate);
            && |b| == 20
            && ReadU32(b[..4]) == flag && ReadU32(b[4..8]) == 1 && ReadU32(b[8..12]) == dur
            && ReadU32(b[12..16]) == 0 && ReadU32(b[16..20]) == rate
  {
    var b := ElstPayload(flag, dur, rate);
    assert b[..4] == U32(flag);
    assert b[4..8] == U32(1);
    assert b[8..12] == U32(dur);
    assert b[12..16] == U32(0);
    assert b[16..20] == U32(rate);
    ReadU32OfU32(flag);
    ReadU32OfU32(1);
    ReadU32OfU32(dur);
    ReadU32OfU32(0);
    ReadU32OfU32(rate);
  }

  /** One `elst` atom (movrepair.py:102-105): the first u32 of the payload
      and the u32 at bytes 16..20 are kept, the rest rewritten. */
  function ElstEdit(a: AtomD, dur: nat): (r: Result<Edit>)
    requires dur < U32_LIMIT
    ensures r.Ok? <==> a.Leaf? && |a.data| >= 20
    ensures r.Ok? ==> r.value == Overwrite(ElstPayload(ReadU32(a.data[..4]), dur, ReadU32(a.data[16..20])))
  {
    var data :- DataOf(a);
    var flagBytes := Slice(data, 0, 4);
    if |flagBytes| != 4 then Err(StructError)
    else
      var rateBytes := Slice(data, 16, 20);
      if |rateBytes| != 4 then Err(StructError)
      else Ok(Overwrite(ElstPayload(ReadU32(flagBytes), dur, ReadU32(rateBytes))))
  }

  /** What an `elst` atom holds after its edit: one entry with the new
      duration, the first word and the rate kept from the old payload. */
  lemma ElstEdited(a: AtomD, dur: nat)
    requires dur < U32_LIMIT && ElstEdit(a, dur).Ok?
    ensures var b := ApplyEdit(a, ElstEdit(a, dur).value);
            && b.Ok? && b.value.Leaf? && b.value.tag == a.tag && |b.value.data| == 20
            && b.value.data[..4] == a.data[..4]
            && ReadU32(b.value.data[4..8]) == 1
            && ReadU32(b.value.data[8..12]) == dur
            && ReadU32(b.value.data[12..16]) == 0
            && b.value.data[16..20] == a.data[16..20]
  {
    var flag, rate := ReadU32(a.data[..4]), ReadU32(a.data[16..20]);
    ElstPayloadReads(flag, dur, rate);
    var d := ElstPayload(flag, dur, rate);
    U32OfReadU32(a.data[..4]);
    U32OfReadU32(a.data[16..20]);
    U32OfReadU32(d[..4]);
    U32OfReadU32(d[16..20]);
  }

  /** One `mdhd` atom (movrepair.py:106-109): its own duration scaled, at
      bytes 16..20. */
  function MdhdEdit(sc: Scale, a: AtomD): (r: Result<Edit>)
    requires sc.den > 0
  {
    var dur :- NewDuration(sc, a);
    var packed :- PackU32(dur);
    Ok(Splice(16, 20, packed))
  }

  /** An `mdhd` edit can be made when the atom has a non-zero time scale and
      its scaled duration fits in 32 bits; the atom then keeps its length
      and every byte but the duration, which becomes the old one scaled. */
  lemma MdhdEdited(sc: Scale, a: AtomD)
    requires sc.den > 0
    ensures MdhdEdit(sc, a).Ok? <==> NewDuration(sc, a).Ok? && NewDuration(sc, a).value < U32_LIMIT
    ensures MdhdEdit(sc, a).Ok? ==>
              var b := ApplyEdit(a, MdhdEdit(sc, a).value);
              var dur := ReadU32(b.value.data[16..20]);
              && b.Ok? && b.value.Leaf? && b.value.tag == a.tag && |b.value.data| == |a.data|
              && b.value.data[..16] == a.data[..16] && b.value.data[20..] == a.data[20..]
              && dur * sc.den <= sc.num * ReadU32(a.data[16..20]) < (dur + 1) * sc.den
  {
    if MdhdEdit(sc, a).Ok? {
      var dur := NewDuration(sc, a).value;
      U32OfReadU32(PackU32(dur).value);
      DurationPatch(a, 16, dur);
    }
  }

  /** What a `tkhd` atom holds after its edit (movrepair.py:94-96): the
      movie's new duration at bytes 20..24, when it has them. */
  lemma TkhdEdited(a: AtomD, dur: nat)
    requires dur < U32_LIMIT && a.Leaf? && |a.data| >= 24
    ensures var b := ApplyEdit(a, Splice(20, 24, PackU32(dur).value));
            && b.Ok? && b.value.Leaf? && |b.value.data| == |a.data|
            && ReadU32(b.value.data[20..24]) == dur
            && b.value.data[..20] == a.data[..20] && b.value.data[24..] == a.data[24..]
  {
    U32OfReadU32(PackU32(dur).value);
    DurationPatch(a, 20, dur);
  }

  /** A duration patch writes the four bytes at `lo..lo + 4` of a payload
      that has them and changes no other byte. */
  lemma DurationPatch(a: AtomD, lo: nat, v: nat)
    requires a.Leaf? && lo + 4 <= |a.data| && v < U32_LIMIT
    ensures var b := ApplyEdit(a, Splice(lo, lo + 4, U32(v)));
            && b.Ok? && b.value.Leaf? && b.value.tag == a.tag
            && |b.value.data| == |a.data|
            && ReadU32(b.value.data[lo..lo + 4]) == v
            && b.value.data[..lo] == a.data[..lo]
            && b.value.data[lo + 4..] == a.data[lo + 4..]
  {
    var d := SliceAssign(a.data, lo, lo + 4, U32(v));
    assert d == a.data[..lo] + U32(v) + a.data[lo + 4..];
    assert d[lo..lo + 4] == U32(v);
    ReadU32OfU32(v);
  }

  // ---------------------------------------------------------------------
  // The sample table

  /** `layout.unpack(atom.data)`: the record decoded from the start of the
      payload; bytes past its end are ignored. */
  function Unpack(l: Codec.Layout, a: AtomD): (r: Result<seq<Codec.Value>>)
    ensures a.Node? ==> r == Err(TypeError)
  {
    var data :- DataOf(a);
    var (v, _) :- Codec.DecodeRecord(l, Stream(data, 0), None);
    if v.Rec? then Ok(v.fields) else Err(TypeError)
  }

  /** `record.table`: a list attribute. */
  function TableOf(l: Codec.Layout, vals: seq<Codec.Value>): Result<seq<Codec.Value>>
  {
    var t :- Codec.GetAttr(l, vals, "table");
    if t.Items? then Ok(t.items) else Err(TypeError)
  }

  /** The entries of a one-code table as numbers; a tuple entry cannot be
      subtracted. */
  function Ints(xs: seq<Codec.Value>): (r: Result<seq<int>>)
    ensures r.Ok? <==> forall i :: 0 <= i < |xs| ==> xs[i].Num?
    ensures r.Ok? ==> |r.value| == |xs| && forall i :: 0 <= i < |xs| ==> r.value[i] == xs[i].n
  {
    if xs == [] then Ok([])
    else if !xs[0].Num? then Err(TypeError)
    else
      var rest :- Ints(xs[1..]);
      Ok([xs[0].n] + rest)
  }

  /** The entries of a one-code table holding the numbers `ns`. */
  function AsNums(ns: seq<int>): (xs: seq<Codec.Value>)
    ensures |xs| == |ns|
  {
    seq(|ns|, i requires 0 <= i < |ns| => Codec.Num(ns[i]))
  }

  /** Numbers and one-code table entries convert into each other. */
  lemma IntsAsNums(ns: seq<int>, xs: seq<Codec.Value>)
    ensures Ints(AsNums(ns)) == Ok(ns)
    ensures Ints(xs).Ok? ==> AsNums(Ints(xs).value) == xs
  {
    assert Ints(AsNums(ns)).value == ns;
  }

  /** `atom.data = record.pack()`: the atom at `p` gets the record's bytes. */
  function Repack(l: Codec.Layout, t: AtomD, p: Pos, vals: seq<Codec.Value>): Result<AtomD>
  {
    var packed :- Codec.EncodeRecord(l, vals);
    Patch(t, p, Assign(packed))
  }

  /** Packing a record whose values round-trip into a leaf gives a leaf
      that decodes to the same record; no other atom of that depth changes. */
  lemma RepackReadsBack(l: Codec.Layout, t: AtomD, p: Pos, vals: seq<Codec.Value>, q: Pos)
    requires Codec.RecordTrips(l, vals, None) && At(t, p).Some? && At(t, p).value.Leaf?
    ensures Repack(l, t, p, vals).Ok?
    ensures At(Repack(l, t, p, vals).value, p).Some?
    ensures Unpack(l, At(Repack(l, t, p, vals).value, p).value) == Ok(vals)
    ensures |q| == |p| && q != p ==> At(Repack(l, t, p, vals).value, q) == At(t, q)
  {
    Codec.RecordRoundTrip(l, vals, None, [], 0);
    var packed := Codec.EncodeRecord(l, vals).value;
    Codec.RecordRoundTrip(l, vals, None, packed, 0);
    PatchAt(t, p, Assign(packed));
    if |q| == |p| && q != p {
      PatchElsewhere(t, p, Assign(packed), q);
    }
  }

  /** The time-to-sample step (movrepair.py:126-136): the table is decoded
      and, unless the format is the time-code literal, packed back as it
      was; the scaled counts the loop computes are never stored. */
  function SttsStep(t: AtomD, p: Pos, format: Codec.Value, stts: seq<Codec.Value>): Result<AtomD>
  {
    if format != Timecode then Repack(Catalog.Stts, t, p, stts) else Ok(t)
  }

  /** The format decoded from the sample description is never the time-code
      literal, so the time-to-sample atom is always packed again, and when
      its record round-trips it decodes afterwards to the record it held. */
  lemma SttsStepRepacks(t: AtomD, p: Pos, desc: AtomD, stts: seq<Codec.Value>)
    requires Unpack(Catalog.Stsd, desc).Ok? && DataFormat(Unpack(Catalog.Stsd, desc).value).Ok?
    requires Codec.RecordTrips(Catalog.Stts, stts, None) && At(t, p).Some? && At(t, p).value.Leaf?
    ensures var r := SttsStep(t, p, DataFormat(Unpack(Catalog.Stsd, desc).value).value, stts);
            && r == Repack(Catalog.Stts, t, p, stts)
            && r.Ok? && At(r.value, p).Some?
            && Unpack(Catalog.Stts, At(r.value, p).value) == Ok(stts)
  {
    FormatNeverTimecode(desc);
    RepackReadsBack(Catalog.Stts, t, p, stts, p);
  }

  /** The record with its table extended (movrepair.py:141-149): a table of
      more than one entry grows to its length scaled and rounded down,
      following the repeating pattern of the gaps between entries. */
  function Extended(l: Codec.Layout, vals: seq<Codec.Value>, sc: Scale): Result<seq<Codec.Value>>
    requires sc.den > 0
  {
    var xs :- TableOf(l, vals);
    if |xs| <= 1 then Ok(vals)
    else
      var table :- Ints(xs);
      Codec.SetAttr(l, vals, "table", Codec.Items(AsNums(Extend(table, ScaleFloor(sc, |table|)))))
  }

  /** The extended record holds the grown table and every other attribute
      as before; a table of numbers can only fail to grow when the record
      has no assignable `table`. */
  lemma ExtendedSpec(l: Codec.Layout, vals: seq<Codec.Value>, sc: Scale)
    requires sc.den > 0 && |vals| == |Codec.VisibleNames(l.fields)| && TableOf(l, vals).Ok?
    ensures var xs := TableOf(l, vals).value;
            |xs| <= 1 ==> Extended(l, vals, sc) == Ok(vals)
    ensures var xs := TableOf(l, vals).value;
            |xs| > 1 && Extended(l, vals, sc).Ok? ==>
              && Ints(xs).Ok?
              && var grown := Extend(Ints(xs).value, ScaleFloor(sc, |xs|));
              && TableOf(l, Extended(l, vals, sc).value) == Ok(AsNums(grown))
              && forall other :: other in Codec.VisibleNames(l.fields) &&
                                 Codec.VisibleIndex(l.fields, other) != Codec.VisibleIndex(l.fields, "table") ==>
                   Codec.GetAttr(l, Extended(l, vals, sc).value, other) == Codec.GetAttr(l, vals, other)
  {
    var xs := TableOf(l, vals).value;
    if |xs| > 1 && Ints(xs).Ok? {
      var grown := Extend(Ints(xs).value, ScaleFloor(sc, |xs|));
      Codec.SetAttrSpec(l, vals, "table", Codec.Items(AsNums(grown)));
    }
  }

  /** The chunk offset step (movrepair.py:139-151), and the corrected sample
      size step: a table with more than one entry is extended and the record
      packed back into the atom; a table with at most one entry is left
      alone. */
  function ExtendTableStep(l: Codec.Layout, t: AtomD, p: Pos, vals: seq<Codec.Value>, sc: Scale): Result<AtomD>
    requires sc.den > 0
  {
    var xs :- TableOf(l, vals);
    if |xs| <= 1 then Ok(t)
    else
      var vals' :- Extended(l, vals, sc);
      Repack(l, t, p, vals')
  }

  /** The extension step leaves the tree alone for a table of at most one
      entry; otherwise, when the extended record round-trips, the atom
      decodes to the extended record afterwards and no other atom of its
      depth changes. */
  lemma ExtendTableStepSpec(l: Codec.Layout, t: AtomD, p: Pos, vals: seq<Codec.Value>, sc: Scale, q: Pos)
    requires sc.den > 0 && TableOf(l, vals).Ok?
    requires |TableOf(l, vals).value| > 1 ==>
               && Extended(l, vals, sc).Ok? && Codec.RecordTrips(l, Extended(l, vals, sc).value, None)
               && At(t, p).Some? && At(t, p).value.Leaf?
    ensures |TableOf(l, vals).value| <= 1 ==> ExtendTableStep(l, t, p, vals, sc) == Ok(t)
    ensures |TableOf(l, vals).value| > 1 ==>
              var r := ExtendTableStep(l, t, p, vals, sc);
              && r.Ok? && At(r.value, p).Some?
              && Unpack(l, At(r.value, p).value) == Extended(l, vals, sc)
              && (|q| == |p| && q != p ==> At(r.value, q) == At(t, q))
  {
    if |TableOf(l, vals).value| > 1 {
      RepackReadsBack(l, t, p, Extended(l, vals, sc).value, q);
    }
  }

  /** The sample size step as written (movrepair.py:154-167): the log line
      before the loop has three placeholders and two arguments, so
      `str.format` raises `IndexError` for any table of two or more
      entries. */
  function StszStepAsWritten(s: AtomD, p: Pos, vals: seq<Codec.Value>, sc: Scale): Result<AtomD>
    requires sc.den > 0
  {
    var xs :- TableOf(Catalog.Stsz, vals);
    if |xs| <= 1 then Ok(s)
    else
      var table :- Ints(xs);
      Err(IndexError)
  }

  /** As written, every sample size table of two or more numeric entries
      aborts the repair; the corrected step extends the same tables. */
  lemma StszAsWrittenAborts(s: AtomD, p: Pos, vals: seq<Codec.Value>, sc: Scale)
    requires sc.den > 0 && TableOf(Catalog.Stsz, vals).Ok?
    requires |TableOf(Catalog.Stsz, vals).value| > 1 && Ints(TableOf(Catalog.Stsz, vals).value).Ok?
    ensures StszStepAsWritten(s, p, vals, sc) == Err(IndexError)
  {
  }

  /** The sample size step without the broken log line: the same extension
      as for chunk offsets. */
  function StszStep(s: AtomD, p: Pos, vals: seq<Codec.Value>, sc: Scale): Result<AtomD>
    requires sc.den > 0
  {
    ExtendTableStep(Catalog.Stsz, s, p, vals, sc)
  }

  /** Where the step as written aborts, the corrected step succeeds and the
      `stsz` atom decodes afterwards to the extended record. */
  lemma StszStepExtends(s: AtomD, p: Pos, vals: seq<Codec.Value>, sc: Scale)
    requires sc.den > 0 && TableOf(Catalog.Stsz, vals).Ok? && |TableOf(Catalog.Stsz, vals).value| > 1
    requires Extended(Catalog.Stsz, vals, sc).Ok?
    requires Codec.RecordTrips(Catalog.Stsz, Extended(Catalog.Stsz, vals, sc).value, None)
    requires At(s, p).Some? && At(s, p).value.Leaf?
    ensures StszStepAsWritten(s, p, vals, sc).Err?
    ensures StszStep(s, p, vals, sc).Ok? && At(StszStep(s, p, vals, sc).value, p).Some?
    ensures Unpack(Catalog.Stsz, At(StszStep(s, p, vals, sc).value, p).value) == Extended(Catalog.Stsz, vals, sc)
  {
    ExtendTableStepSpec(Catalog.Stsz, s, p, vals, sc, p);
  }

  /** `desc.descriptions[0].data_format`. */
  function DataFormat(desc: seq<Codec.Value>): Result<Codec.Value>
  {
    var ds :- Codec.GetAttr(Catalog.Stsd, desc, "descriptions");
    if !ds.Items? then Err(TypeError)
    else if ds.items == [] then Err(IndexError)
    else if !ds.items[0].Rec? then Err(AttributeError)
    else Codec.GetAttr(Catalog.SampleDescription, ds.items[0].fields, "data_format")
  }

  /** A decoded sample description: a record whose `data_format` is a number. */
  predicate NumericFormat(x: Codec.Value)
  {
    && x.Rec?
    && Codec.GetAttr(Catalog.SampleDescription, x.fields, "data_format").Ok?
    && Codec.GetAttr(Catalog.SampleDescription, x.fields, "data_format").value.Num?
  }

  /** What decoding binds to the names of a record keeps a property `P`
      when every field that is not hidden decodes to a value with it. */
  lemma {:induction false} DecodeFieldsInit(fs: seq<Codec.Field>, s: Stream, ctx: Codec.Ctx, P: (string, Codec.Value) -> bool)
    requires forall n :: n in ctx.init ==> P(n, ctx.init[n])
    requires forall k, s', c' :: 0 <= k < |fs| && !Codec.Hidden(fs[k]) && Codec.DecodeField(fs[k], s', c').Ok? ==>
                                 P(fs[k].name, Codec.DecodeField(fs[k], s', c').value.0)
    requires Codec.DecodeFields(fs, s, ctx).Ok?
    ensures var init := Codec.DecodeFields(fs, s, ctx).value.0.init;
            forall n :: n in init ==> P(n, init[n])
    decreases |fs|
  {
    if fs != [] {
      var (v, s1) := Codec.DecodeField(fs[0], s, ctx).value;
      var rest := fs[1..];
      forall k, s', c' | 0 <= k < |rest| && !Codec.Hidden(rest[k]) && Codec.DecodeField(rest[k], s', c').Ok?
        ensures P(rest[k].name, Codec.DecodeField(rest[k], s', c').value.0)
      {
        assert rest[k] == fs[k + 1];
      }
      DecodeFieldsInit(rest, s1, Codec.Record(ctx, fs[0], v), P);
    }
  }

  /** The format of a sample description is declared `I`: it always decodes
      to a number. */
  lemma SampleDescriptionFormat(s: Stream)
    requires Codec.DecodeRecord(Catalog.SampleDescription, s, None).Ok?
    ensures NumericFormat(Codec.DecodeRecord(Catalog.SampleDescription, s, None).value.0)
  {
    var l := Catalog.SampleDescription;
    var P := (n: string, v: Codec.Value) => n != "data_format" || v.Num?;
    SampleDescriptionFields(P);
    DecodeFieldsInit(l.fields, s, Codec.NewCtx(None), P);
    var init := Codec.DecodeFields(l.fields, s, Codec.NewCtx(None)).value.0.init;
    Catalog.SampleDescriptionNames();
    Codec.ConstructSpec(l, [], init);
    Codec.GetAttrAt(l, Codec.Construct(l, [], init).value, 0);
  }

  /** The only field of a sample description named `data_format` is a
      one-item `I` field. */
  lemma SampleDescriptionFields(P: (string, Codec.Value) -> bool)
    requires forall v: Codec.Value :: P("data_format", v) <== v.Num?
    requires forall n, v :: n != "data_format" ==> P(n, v)
    ensures var fs := Catalog.SampleDescription.fields;
            forall k, s', c' :: 0 <= k < |fs| && !Codec.Hidden(fs[k]) && Codec.DecodeField(fs[k], s', c').Ok? ==>
                                P(fs[k].name, Codec.DecodeField(fs[k], s', c').value.0)
  {
    var fs := Catalog.SampleDescription.fields;
    forall k, s', c' | 0 <= k < |fs| && !Codec.Hidden(fs[k]) && Codec.DecodeField(fs[k], s', c').Ok?
      ensures P(fs[k].name, Codec.DecodeField(fs[k], s', c').value.0)
    {
      if k == 1 {
        var d := s'.Read(4).0;
        assert |Codec.UnpackCodes([Codec.I], d)| == 1;
      }
    }
  }

  /** Every item of a decoded list has a property `Q` when every item
      decoded on its own has it. */
  lemma {:induction false} DecodeItemsAll(e: Codec.Elem, n: nat, s: Stream, Q: Codec.Value -> bool)
    requires forall s' :: Codec.DecodeElem(e, s').Ok? ==> Q(Codec.DecodeElem(e, s').value.0)
    requires Codec.DecodeItems(e, n, s).Ok?
    ensures var xs := Codec.DecodeItems(e, n, s).value.0;
            forall k :: 0 <= k < |xs| ==> Q(xs[k])
    decreases n
  {
    if n > 0 {
      var (x, s1) := Codec.DecodeElem(e, s).value;
      var (xs, s2) := Codec.DecodeItems(e, n - 1, s1).value;
      assert Codec.DecodeItems(e, n, s).value.0 == [x] + xs;
      DecodeItemsAll(e, n - 1, s1, Q);
    }
  }

  /** Every description of a decoded list has a numeric format. */
  lemma DescriptionsFormat(n: nat, s: Stream)
    requires Codec.DecodeItems(Codec.Sub(Catalog.SampleDescription), n, s).Ok?
    ensures var xs := Codec.DecodeItems(Codec.Sub(Catalog.SampleDescription), n, s).value.0;
            forall k :: 0 <= k < |xs| ==> NumericFormat(xs[k])
  {
    var e := Codec.Sub(Catalog.SampleDescription);
    forall s' | Codec.DecodeElem(e, s').Ok?
      ensures NumericFormat(Codec.DecodeElem(e, s').value.0)
    {
      SampleDescriptionFormat(s');
    }
    DecodeItemsAll(e, n, s, NumericFormat);
  }

  /** A decoded `stsd` record lists descriptions with numeric formats. */
  lemma StsdDescriptions(s: Stream)
    requires Codec.DecodeRecord(Catalog.Stsd, s, None).Ok?
    ensures var x := Codec.DecodeRecord(Catalog.Stsd, s, None).value.0;
            && x.Rec?
            && var ds := Codec.GetAttr(Catalog.Stsd, x.fields, "descriptions");
            && ds.Ok? && ds.value.Items?
            && forall k :: 0 <= k < |ds.value.items| ==> NumericFormat(ds.value.items[k])
  {
    var l := Catalog.Stsd;
    var P := (n: string, v: Codec.Value) =>
      n != "descriptions" || (v.Items? && forall k :: 0 <= k < |v.items| ==> NumericFormat(v.items[k]));
    forall k, s', c' | 0 <= k < |l.fields| && !Codec.Hidden(l.fields[k]) && Codec.DecodeField(l.fields[k], s', c').Ok?
      ensures P(l.fields[k].name, Codec.DecodeField(l.fields[k], s', c').value.0)
    {
      if k == 3 {
        var n := Codec.EvalCount(Codec.CountOf("nitems"), c').value;
        DescriptionsFormat(n, s');
      }
    }
    DecodeFieldsInit(l.fields, s, Codec.NewCtx(None), P);
    var init := Codec.DecodeFields(l.fields, s, Codec.NewCtx(None)).value.0.init;
    Catalog.CountedListNames("stsd", "descriptions", Codec.Sub(Catalog.SampleDescription));
    Codec.ConstructSpec(l, [], init);
    Codec.GetAttrAt(l, Codec.Construct(l, [], init).value, 2);
  }

  /** The format read from a decoded `stsd` payload is a number, so it is
      never the bytes `tmcd`: the comparison at movrepair.py:121 never holds
      and the one at movrepair.py:129 always does. */
  lemma FormatNeverTimecode(a: AtomD)
    requires Unpack(Catalog.Stsd, a).Ok? && DataFormat(Unpack(Catalog.Stsd, a).value).Ok?
    ensures DataFormat(Unpack(Catalog.Stsd, a).value).value.Num?
    ensures DataFormat(Unpack(Catalog.Stsd, a).value).value != Timecode
  {
    StsdDescriptions(Stream(a.data, 0));
  }

  /** One `stbl` atom (movrepair.py:114-167), with the corrected sample
      size step. */
  function FixStbl(stbl: AtomD, sc: Scale): Result<AtomD>
    requires sc.den > 0
  {
    var (s6, pz, stsz) :- StblTables(stbl, sc);
    StszStep(s6, pz, stsz, sc)
  }

  /** One `stbl` atom as written: the sample size step raises on its log
      line. */
  function FixStblAsWritten(stbl: AtomD, sc: Scale): Result<AtomD>
    requires sc.den > 0
  {
    var (s6, pz, stsz) :- StblTables(stbl, sc);
    StszStepAsWritten(s6, pz, stsz, sc)
  }

  /** Everything in a `stbl` before the sample size step (movrepair.py:114-158).
      The sample description is found and decoded first, which splits the
      `stbl`; the time-to-sample table is packed again unchanged unless the
      format is the time-code literal; the chunk offset table is extended;
      then the sample size atom is found and decoded. Returns the tree, the
      position of that atom and its record. */
  function StblTables(stbl: AtomD, sc: Scale): Result<(AtomD, Pos, seq<Codec.Value>)>
    requires sc.den > 0
  {
    var (s1, pd) :- FindFirst(stbl, [STSD]);
    var da :- AtomAt(s1, pd);
    var desc :- Unpack(Catalog.Stsd, da);
    var format :- DataFormat(desc);
    var (s2, pt) :- FindFirst(s1, [STTS]);
    var ta :- AtomAt(s2, pt);
    var stts :- Unpack(Catalog.Stts, ta);
    var s3 :- SttsStep(s2, pt, format, stts);
    var (s4, pc) :- FindFirst(s3, [STCO]);
    var ca :- AtomAt(s4, pc);
    var stco :- Unpack(Catalog.Stco, ca);
    var s5 :- ExtendTableStep(Catalog.Stco, s4, pc, stco, sc);
    var (s6, pz) :- FindFirst(s5, [STSZ]);
    var za :- AtomAt(s6, pz);
    var stsz :- Unpack(Catalog.Stsz, za);
    Ok((s6, pz, stsz))
  }

  /** The two `stbl` steps agree up to the sample size table. With a table
      of at most one entry both return the tree unchanged; with more
      numeric entries the step as written raises `IndexError`, while the
      corrected one stores the extended table whenever that record packs
      and decodes back. */
  lemma FixStblAsWrittenDiffers(stbl: AtomD, sc: Scale)
    requires sc.den > 0 && StblTables(stbl, sc).Ok?
    requires TableOf(Catalog.Stsz, StblTables(stbl, sc).value.2).Ok?
    ensures var (s6, pz, stsz) := StblTables(stbl, sc).value;
            var xs := TableOf(Catalog.Stsz, stsz).value;
            && (|xs| <= 1 ==> FixStbl(stbl, sc) == FixStblAsWritten(stbl, sc) == Ok(s6))
            && (|xs| > 1 && Ints(xs).Ok? ==> FixStblAsWritten(stbl, sc) == Err(IndexError))
            && (|xs| > 1 && Extended(Catalog.Stsz, stsz, sc).Ok? &&
                Codec.RecordTrips(Catalog.Stsz, Extended(Catalog.Stsz, stsz, sc).value, None) &&
                At(s6, pz).Some? && At(s6, pz).value.Leaf? ==>
                  && FixStbl(stbl, sc).Ok? && At(FixStbl(stbl, sc).value, pz).Some?
                  && Unpack(Catalog.Stsz, At(FixStbl(stbl, sc).value, pz).value) == Extended(Catalog.Stsz, stsz, sc))
  {
    var (s6, pz, stsz) := StblTables(stbl, sc).value;
    var xs := TableOf(Catalog.Stsz, stsz).value;
    if |xs| > 1 && Extended(Catalog.Stsz, stsz, sc).Ok? &&
       Codec.RecordTrips(Catalog.Stsz, Extended(Catalog.Stsz, stsz, sc).value, None) &&
       At(s6, pz).Some? && At(s6, pz).value.Leaf? {
      ExtendTableStepSpec(Catalog.Stsz, s6, pz, stsz, sc, pz);
    }
  }

  /** The loop over the `stbl` atoms of one `minf`. */
  function FixStbls(m: AtomD, ps: seq<Pos>, sc: Scale): Result<AtomD>
    requires sc.den > 0
    decreases |ps|
  {
    if ps == [] then Ok(m)
    else
      var s :- AtomAt(m, ps[0]);
      var s1 :- FixStbl(s, sc);
      var m1 :- Replace(m, ps[0], s1);
      FixStbls(m1, ps[1..], sc)
  }

  /** One `minf` atom: looking for its `vmhd` splits it (the atom found is
      not used), then each `stbl` in it is fixed. */
  function FixMinf(minf: AtomD, sc: Scale): Result<AtomD>
    requires sc.den > 0
  {
    var (m1, _) :- Find(minf, [VMHD]);
    var (m2, ps) :- Find(m1, [STBL]);
    FixStbls(m2, ps, sc)
  }

  /** The loop over the `minf` atoms of all tracks. */
  function FixMinfs(t: AtomD, ps: seq<Pos>, sc: Scale): Result<AtomD>
    requires sc.den > 0
    decreases |ps|
  {
    if ps == [] then Ok(t)
    else
      var m :- AtomAt(t, ps[0]);
      var m1 :- FixMinf(m, sc);
      var t1 :- Replace(t, ps[0], m1);
      FixMinfs(t1, ps[1..], sc)
  }

  // ---------------------------------------------------------------------
  // The whole `moov`

  /** The `mvhd` step (movrepair.py:88-92): the movie duration is scaled,
      packed, and written at bytes 16..20. Returns the tree, the packed new
      duration and its value. */
  function FixMvhd(moov: AtomD, sc: Scale): Result<(AtomD, nat)>
    requires sc.den > 0
  {
    var (t0, pm) :- FindFirst(moov, [MVHD]);
    var mvhd :- AtomAt(t0, pm);
    var dur :- NewDuration(sc, mvhd);
    var packed :- PackU32(dur);
    var t1 :- Patch(t0, pm, Splice(16, 20, packed));
    Ok((t1, dur))
  }

  /** The `mvhd` step succeeds when the first `mvhd` found has a non-zero
      time scale and its scaled duration fits in 32 bits; that atom then
      holds the scaled duration at bytes 16..20 and every other byte as
      before, and no other atom of its depth changes. */
  lemma FixMvhdSpec(moov: AtomD, sc: Scale, q: Pos)
    requires sc.den > 0 && FixMvhd(moov, sc).Ok?
    ensures FindFirst(moov, [MVHD]).Ok?
    ensures var (t0, pm) := FindFirst(moov, [MVHD]).value;
            var (t1, dur) := FixMvhd(moov, sc).value;
            && At(t0, pm).Some? && At(t1, pm).Some?
            && var a := At(t0, pm).value;
            && var b := At(t1, pm).value;
            && a.Leaf? && b.Leaf? && b.tag == a.tag && |b.data| == |a.data| >= 20
            && NewDuration(sc, a) == Ok(dur) && dur < U32_LIMIT
            && dur * sc.den <= sc.num * ReadU32(a.data[16..20]) < (dur + 1) * sc.den
            && ReadU32(b.data[16..20]) == dur
            && b.data[..16] == a.data[..16] && b.data[20..] == a.data[20..]
            && (|q| == |pm| && q != pm ==> At(t1, q) == At(t0, q))
  {
    var (t0, pm) := FindFirst(moov, [MVHD]).value;
    var dur := NewDuration(sc, At(t0, pm).value).value;
    U32OfReadU32(PackU32(dur).value);
    PatchDuration(t0, pm, 16, dur, q);
  }

  /** Writing a 32-bit value into four bytes of the leaf at `p`. */
  lemma PatchDuration(t: AtomD, p: Pos, lo: nat, v: nat, q: Pos)
    requires At(t, p).Some? && At(t, p).value.Leaf? && lo + 4 <= |At(t, p).value.data| && v < U32_LIMIT
    ensures Patch(t, p, Splice(lo, lo + 4, U32(v))).Ok?
    ensures var a := At(t, p).value;
            var r := Patch(t, p, Splice(lo, lo + 4, U32(v))).value;
            && At(r, p).Some?
            && var b := At(r, p).value;
            && b.Leaf? && b.tag == a.tag && |b.data| == |a.data|
            && ReadU32(b.data[lo..lo + 4]) == v
            && b.data[..lo] == a.data[..lo] && b.data[lo + 4..] == a.data[lo + 4..]
            && (|q| == |p| && q != p ==> At(r, q) == At(t, q))
  {
    DurationPatch(At(t, p).value, lo, v);
    PatchAt(t, p, Splice(lo, lo + 4, U32(v)));
    if |q| == |p| && q != p {
      PatchElsewhere(t, p, Splice(lo, lo + 4, U32(v)), q);
    }
  }

  /** `fix_metadata(scale_factor, moov)`: the header passes, then the loop
      over the `minf` atoms. */
  function FixMetadata(sc: Scale, moov: AtomD): Result<AtomD>
    requires sc.den > 0
  {
    var (t7, _) :- FixHeaders(sc, moov);
    var (t8, mis) :- Find(t7, [TRAK, MDIA, MINF]);
    FixMinfs(t8, mis, sc)
  }

  /** movrepair.py:88-109: the `mvhd` step, then one pass over the `tkhd`,
      the `elst` and the `mdhd` atoms of all tracks. Returns the tree and the
      movie's new duration. */
  function FixHeaders(sc: Scale, moov: AtomD): Result<(AtomD, nat)>
    requires sc.den > 0
  {
    var (t1, dur) :- FixMvhd(moov, sc);
    var packed :- PackU32(dur);
    var (t2, tks) :- Find(t1, [TRAK, TKHD]);
    var t3 :- TkhdPass(t2, tks, dur);
    var (t4, els) :- Find(t3, [TRAK, EDTS, ELST]);
    var t5 :- ElstPass(t4, els, dur);
    var (t6, mds) :- Find(t5, [TRAK, MDIA, MDHD]);
    var t7 :- MdhdPass(t6, mds, sc);
    Ok((t7, dur))
  }

  /** Every `tkhd` gets the movie's new duration, packed, at bytes 20..24. */
  function TkhdPass(t: AtomD, ps: seq<Pos>, dur: nat): Result<AtomD>
    requires dur < U32_LIMIT
  {
    EditEach(t, ps, a => Ok(Splice(20, 24, PackU32(dur).value)))
  }

  /** Every `elst` is rewritten to one entry of the movie's new duration. */
  function ElstPass(t: AtomD, ps: seq<Pos>, dur: nat): Result<AtomD>
    requires dur < U32_LIMIT
  {
    EditEach(t, ps, a => ElstEdit(a, dur))
  }

  /** Every `mdhd` gets its own duration scaled. */
  function MdhdPass(t: AtomD, ps: seq<Pos>, sc: Scale): Result<AtomD>
    requires sc.den > 0
  {
    EditEach(t, ps, a => MdhdEdit(sc, a))
  }

  // ---------------------------------------------------------------------
  // What the header passes do

  /** `b` is the leaf `a` with the u32 `v` at bytes `lo..lo + 4` and every
      other byte kept. */
  predicate DurationWritten(a: AtomD, b: AtomD, lo: nat, v: nat)
  {
    && a.Leaf? && b.Leaf? && b.tag == a.tag && |b.data| == |a.data| && lo + 4 <= |a.data|
    && ReadU32(b.data[lo..lo + 4]) == v
    && b.data[..lo] == a.data[..lo] && b.data[lo + 4..] == a.data[lo + 4..]
  }

  /** A `tkhd` after its pass: the bytes 20..24 replaced by the packed
      duration; an atom that has them keeps its length and other bytes. */
  predicate TkhdWritten(a: AtomD, b: AtomD, dur: nat)
  {
    && dur < U32_LIMIT && a.Leaf? && b == Leaf(a.tag, SliceAssign(a.data, 20, 24, U32(dur)))
    && (|a.data| >= 24 ==> DurationWritten(a, b, 20, dur))
  }

  /** An `elst` after its pass: 20 bytes, the first word and the rate kept,
      one entry of duration `dur` starting at media time 0. */
  predicate ElstWritten(a: AtomD, b: AtomD, dur: nat)
  {
    && a.Leaf? && b.Leaf? && b.tag == a.tag && |a.data| >= 20 && |b.data| == 20
    && b.data[..4] == a.data[..4]
    && ReadU32(b.data[4..8]) == 1 && ReadU32(b.data[8..12]) == dur && ReadU32(b.data[12..16]) == 0
    && b.data[16..20] == a.data[16..20]
  }

  /** An `mdhd` after its pass: its duration at 16..20 scaled and rounded
      down, every other byte kept. */
  predicate MdhdScaled(sc: Scale, a: AtomD, b: AtomD)
  {
    && a.Leaf? && |a.data| >= 20 && ReadU32(a.data[12..16]) != 0 && b.Leaf? && |b.data| >= 20
    && DurationWritten(a, b, 16, ReadU32(b.data[16..20]))
    && ReadU32(b.data[16..20]) * sc.den <= sc.num * ReadU32(a.data[16..20]) < (ReadU32(b.data[16..20]) + 1) * sc.den
  }

  /** The positions a search returned: all different, each leading along
      the path. */
  lemma FindDisjoint(a: AtomD, path: seq<Tag>)
    requires path != [] && Find(a, path).Ok?
    ensures Disjoint(Find(a, path).value.1, |path|)
    ensures forall k :: 0 <= k < |Find(a, path).value.1| ==> Follows(Find(a, path).value.0, Find(a, path).value.1[k], path)
  {
    var ps := Find(a, path).value.1;
    FindInSound(a, path);
    FindInOrdered(a, path);
    forall k, l | 0 <= k < l < |ps|
      ensures ps[k] != ps[l]
    {
      BeforeIrreflexive(ps[k]);
    }
  }

  lemma {:induction false} BeforeIrreflexive(p: Pos)
    ensures !Before(p, p)
    decreases |p|
  {
    if p != [] {
      BeforeIrreflexive(p[1..]);
    }
  }

  /** The `tkhd` pass over the atoms of one search: each of them gets the
      duration, every other atom of their depth is as it was. */
  lemma TkhdPassSpec(t: AtomD, ps: seq<Pos>, dur: nat, q: Pos)
    requires dur < U32_LIMIT && Disjoint(ps, |q|) && TkhdPass(t, ps, dur).Ok?
    ensures q in ps ==> At(t, q).Some? && At(TkhdPass(t, ps, dur).value, q).Some? &&
                        TkhdWritten(At(t, q).value, At(TkhdPass(t, ps, dur).value, q).value, dur)
    ensures q !in ps ==> At(TkhdPass(t, ps, dur).value, q) == At(t, q)
  {
    var f := a => Ok(Splice(20, 24, PackU32(dur).value));
    assert TkhdPass(t, ps, dur) == EditEach(t, ps, f);
    EditEachSpec(t, ps, f, q);
    if q in ps {
      var a := At(t, q).value;
      if |a.data| >= 24 {
        TkhdEdited(a, dur);
      }
    }
  }

  /** The `elst` pass: each atom found is rewritten to one entry. */
  lemma ElstPassSpec(t: AtomD, ps: seq<Pos>, dur: nat, q: Pos)
    requires dur < U32_LIMIT && Disjoint(ps, |q|) && ElstPass(t, ps, dur).Ok?
    ensures q in ps ==> At(t, q).Some? && At(ElstPass(t, ps, dur).value, q).Some? &&
                        ElstWritten(At(t, q).value, At(ElstPass(t, ps, dur).value, q).value, dur)
    ensures q !in ps ==> At(ElstPass(t, ps, dur).value, q) == At(t, q)
  {
    var f := a => ElstEdit(a, dur);
    assert ElstPass(t, ps, dur) == EditEach(t, ps, f);
    EditEachSpec(t, ps, f, q);
    if q in ps {
      ElstEdited(At(t, q).value, dur);
    }
  }

  /** The `mdhd` pass: each atom found gets its own duration scaled. */
  lemma MdhdPassSpec(t: AtomD, ps: seq<Pos>, sc: Scale, q: Pos)
    requires sc.den > 0 && Disjoint(ps, |q|) && MdhdPass(t, ps, sc).Ok?
    ensures q in ps ==> At(t, q).Some? && At(MdhdPass(t, ps, sc).value, q).Some? &&
                        MdhdScaled(sc, At(t, q).value, At(MdhdPass(t, ps, sc).value, q).value)
    ensures q !in ps ==> At(MdhdPass(t, ps, sc).value, q) == At(t, q)
  {
    var f := a => MdhdEdit(sc, a);
    assert MdhdPass(t, ps, sc) == EditEach(t, ps, f);
    EditEachSpec(t, ps, f, q);
    if q in ps {
      MdhdEdited(sc, At(t, q).value);
    }
  }

  /** The `tkhd` pass over `ps` took `t` to `t1`. */
  ghost predicate TkhdsDone(t: AtomD, ps: seq<Pos>, t1: AtomD, dur: nat)
  {
    forall q :: |q| == 2 ==>
      && (q in ps ==> At(t, q).Some? && At(t1, q).Some? && TkhdWritten(At(t, q).value, At(t1, q).value, dur))
      && (q !in ps ==> At(t1, q) == At(t, q))
  }

  /** The `elst` pass over `ps` took `t` to `t1`. */
  ghost predicate ElstsDone(t: AtomD, ps: seq<Pos>, t1: AtomD, dur: nat)
  {
    forall q :: |q| == 3 ==>
      && (q in ps ==> At(t, q).Some? && At(t1, q).Some? && ElstWritten(At(t, q).value, At(t1, q).value, dur))
      && (q !in ps ==> At(t1, q) == At(t, q))
  }

  /** The `mdhd` pass over `ps` took `t` to `t1`. */
  ghost predicate MdhdsDone(t: AtomD, ps: seq<Pos>, t1: AtomD, sc: Scale)
  {
    forall q :: |q| == 3 ==>
      && (q in ps ==> At(t, q).Some? && At(t1, q).Some? && MdhdScaled(sc, At(t, q).value, At(t1, q).value))
      && (q !in ps ==> At(t1, q) == At(t, q))
  }

  /** The header passes as a whole (movrepair.py:88-109): when they succeed,
      the `mvhd` step gave the movie's new duration, and each pass wrote
      every atom its search found (exactly the atoms along its path) and
      left the other atoms of that depth as they were. */
  lemma FixHeadersSpec(sc: Scale, moov: AtomD)
    requires sc.den > 0 && FixHeaders(sc, moov).Ok?
    ensures FixMvhd(moov, sc).Ok? && FixMvhd(moov, sc).value.1 < U32_LIMIT
    ensures var (t1, dur) := FixMvhd(moov, sc).value;
            && FixHeaders(sc, moov).value.1 == dur
            && Find(t1, [TRAK, TKHD]).Ok?
            && var (t2, tks) := Find(t1, [TRAK, TKHD]).value;
            && (forall k :: 0 <= k < |tks| ==> Follows(t2, tks[k], [TRAK, TKHD]))
            && TkhdPass(t2, tks, dur).Ok? && TkhdsDone(t2, tks, TkhdPass(t2, tks, dur).value, dur)
            && var t3 := TkhdPass(t2, tks, dur).value;
            && Find(t3, [TRAK, EDTS, ELST]).Ok?
            && var (t4, els) := Find(t3, [TRAK, EDTS, ELST]).value;
            && (forall k :: 0 <= k < |els| ==> Follows(t4, els[k], [TRAK, EDTS, ELST]))
            && ElstPass(t4, els, dur).Ok? && ElstsDone(t4, els, ElstPass(t4, els, dur).value, dur)
            && var t5 := ElstPass(t4, els, dur).value;
            && Find(t5, [TRAK, MDIA, MDHD]).Ok?
            && var (t6, mds) := Find(t5, [TRAK, MDIA, MDHD]).value;
            && (forall k :: 0 <= k < |mds| ==> Follows(t6, mds[k], [TRAK, MDIA, MDHD]))
            && MdhdPass(t6, mds, sc).Ok? && MdhdsDone(t6, mds, MdhdPass(t6, mds, sc).value, sc)
            && FixHeaders(sc, moov).value.0 == MdhdPass(t6, mds, sc).value
  {
    var (t1, dur) := FixMvhd(moov, sc).value;
    var (t2, tks) := Find(t1, [TRAK, TKHD]).value;
    FindDisjoint(t1, [TRAK, TKHD]);
    TkhdsDoneOf(t2, tks, dur);
    var t3 := TkhdPass(t2, tks, dur).value;
    var (t4, els) := Find(t3, [TRAK, EDTS, ELST]).value;
    FindDisjoint(t3, [TRAK, EDTS, ELST]);
    ElstsDoneOf(t4, els, dur);
    var t5 := ElstPass(t4, els, dur).value;
    var (t6, mds) := Find(t5, [TRAK, MDIA, MDHD]).value;
    FindDisjoint(t5, [TRAK, MDIA, MDHD]);
    MdhdsDoneOf(t6, mds, sc);
  }

  lemma TkhdsDoneOf(t: AtomD, ps: seq<Pos>, dur: nat)
    requires dur < U32_LIMIT && Disjoint(ps, 2) && TkhdPass(t, ps, dur).Ok?
    ensures TkhdsDone(t, ps, TkhdPass(t, ps, dur).value, dur)
  {
    forall q | |q| == 2 {
      TkhdPassSpec(t, ps, dur, q);
    }
  }

  lemma ElstsDoneOf(t: AtomD, ps: seq<Pos>, dur: nat)
    requires dur < U32_LIMIT && Disjoint(ps, 3) && ElstPass(t, ps, dur).Ok?
    ensures ElstsDone(t, ps, ElstPass(t, ps, dur).value, dur)
  {
    forall q | |q| == 3 {
      ElstPassSpec(t, ps, dur, q);
    }
  }

  lemma MdhdsDoneOf(t: AtomD, ps: seq<Pos>, sc: Scale)
    requires sc.den > 0 && Disjoint(ps, 3) && MdhdPass(t, ps, sc).Ok?
    ensures MdhdsDone(t, ps, MdhdPass(t, ps, sc).value, sc)
  {
    forall q | |q| == 3 {
      MdhdPassSpec(t, ps, sc, q);
    }
  }

  // ---------------------------------------------------------------------
  // What the table loops do

  /** The loop over the `stbl` atoms of one `minf` fixes each of them from
      its contents before the loop and leaves every other atom of their
      depth as it was. */
  lemma {:induction false} FixStblsSpec(m: AtomD, ps: seq<Pos>, sc: Scale, q: Pos)
    requires sc.den > 0 && Disjoint(ps, |q|) && FixStbls(m, ps, sc).Ok?
    ensures q in ps ==> && At(m, q).Some? && FixStbl(At(m, q).value, sc).Ok?
                        && At(FixStbls(m, ps, sc).value, q) == Some(FixStbl(At(m, q).value, sc).value)
    ensures q !in ps ==> At(FixStbls(m, ps, sc).value, q) == At(m, q)
    decreases |ps|
  {
    if ps != [] {
      var s1 := FixStbl(At(m, ps[0]).value, sc).value;
      ReplaceSpec(m, ps[0], s1, q);
      var m1 := Replace(m, ps[0], s1).value;
      assert Disjoint(ps[1..], |q|);
      FixStblsSpec(m1, ps[1..], sc, q);
      if q == ps[0] {
        assert q !in ps[1..];
      }
    }
  }

  /** The loop over the `minf` atoms fixes each of them from its contents
      before the loop and leaves every other atom of their depth as it
      was. */
  lemma {:induction false} FixMinfsSpec(t: AtomD, ps: seq<Pos>, sc: Scale, q: Pos)
    requires sc.den > 0 && Disjoint(ps, |q|) && FixMinfs(t, ps, sc).Ok?
    ensures q in ps ==> && At(t, q).Some? && FixMinf(At(t, q).value, sc).Ok?
                        && At(FixMinfs(t, ps, sc).value, q) == Some(FixMinf(At(t, q).value, sc).value)
    ensures q !in ps ==> At(FixMinfs(t, ps, sc).value, q) == At(t, q)
    decreases |ps|
  {
    if ps != [] {
      var m1 := FixMinf(At(t, ps[0]).value, sc).value;
      ReplaceSpec(t, ps[0], m1, q);
      var t1 := Replace(t, ps[0], m1).value;
      assert Disjoint(ps[1..], |q|);
      FixMinfsSpec(t1, ps[1..], sc, q);
      if q == ps[0] {
        assert q !in ps[1..];
      }
    }
  }

  /** One `minf`: every `stbl` its search found is fixed, every other atom
      of that depth in the `minf` is kept. */
  lemma FixMinfSpec(minf: AtomD, sc: Scale)
    requires sc.den > 0 && FixMinf(minf, sc).Ok?
    ensures Find(minf, [VMHD]).Ok? && Find(Find(minf, [VMHD]).value.0, [STBL]).Ok?
    ensures var (m2, ps) := Find(Find(minf, [VMHD]).value.0, [STBL]).value;
            StblsDone(m2, ps, FixMinf(minf, sc).value, sc)
  {
    var (m2, ps) := Find(Find(minf, [VMHD]).value.0, [STBL]).value;
    FindDisjoint(Find(minf, [VMHD]).value.0, [STBL]);
    forall q | |q| == 1 {
      FixStblsSpec(m2, ps, sc, q);
    }
  }

  /** The `stbl` loop over `ps` took `m` to `m1`. */
  ghost predicate StblsDone(m: AtomD, ps: seq<Pos>, m1: AtomD, sc: Scale)
    requires sc.den > 0
  {
    forall q :: |q| == 1 ==>
      && (q in ps ==> At(m, q).Some? && FixStbl(At(m, q).value, sc).Ok? && At(m1, q) == Some(FixStbl(At(m, q).value, sc).value))
      && (q !in ps ==> At(m1, q) == At(m, q))
  }

  /** The `minf` loop over `ps` took `t` to `t1`. */
  ghost predicate MinfsDone(t: AtomD, ps: seq<Pos>, t1: AtomD, sc: Scale)
    requires sc.den > 0
  {
    forall q :: |q| == 3 ==>
      && (q in ps ==> At(t, q).Some? && FixMinf(At(t, q).value, sc).Ok? && At(t1, q) == Some(FixMinf(At(t, q).value, sc).value))
      && (q !in ps ==> At(t1, q) == At(t, q))
  }

  /** `fix_metadata` as a whole (movrepair.py:86-167): the header passes
      succeeded as `FixHeadersSpec` describes, then every `minf` found along
      `trak/mdia/minf` in their result was fixed and every other atom of that
      depth kept. */
  lemma FixMetadataSpec(sc: Scale, moov: AtomD)
    requires sc.den > 0 && FixMetadata(sc, moov).Ok?
    ensures FixHeaders(sc, moov).Ok?
    ensures var t7 := FixHeaders(sc, moov).value.0;
            && Find(t7, [TRAK, MDIA, MINF]).Ok?
            && var (t8, mis) := Find(t7, [TRAK, MDIA, MINF]).value;
            && (forall k :: 0 <= k < |mis| ==> Follows(t8, mis[k], [TRAK, MDIA, MINF]))
            && MinfsDone(t8, mis, FixMetadata(sc, moov).value, sc)
  {
    var t7 := FixHeaders(sc, moov).value.0;
    var (t8, mis) := Find(t7, [TRAK, MDIA, MINF]).value;
    FindDisjoint(t7, [TRAK, MDIA, MINF]);
    forall q | |q| == 3 {
      FixMinfsSpec(t8, mis, sc, q);
    }
  }
}
