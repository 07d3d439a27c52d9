/** The catalog of QuickTime atom layouts of movatoms.py, written in the
    record codec's terms: the fixed-size headers (`mvhd`, `tkhd`, `mdhd`,
    `vmhd`), the counted tables of the sample table (`stts`, `stss`, `stsc`,
    `stco`, `stsz`, `stsd`), the data references, the handler reference, and
    the container atoms whose only field is a list of sub-atoms. */
module Catalog {
  import opened Wrappers
  import opened Bytes
  import opened RecordCodec

  /** `n` copies of one format item: `>9I` is `Repeat(I, 9)`, `4x` is `Repeat(X, 4)`. */
  function Repeat(c: Code, n: nat): (r: seq<Code>)
    ensures |r| == n
  {
    if n == 0 then [] else [c] + Repeat(c, n - 1)
  }

  /** A visible field of a fixed format. */
  function Val(name: string, codes: seq<Code>): Field
  {
    Plain(name, false, None, codes)
  }

  /** `Field('?', '<n>x')`: unnamed padding. */
  function Pad(n: nat): Field
  {
    Plain("", true, None, Repeat(X, n))
  }

  /** `Field('<name>?', fmt, getter)`: a hidden field derived on encoding. */
  function Derived(name: string, codes: seq<Code>, g: Getter): Field
  {
    Plain(name, true, Some(g), codes)
  }

  /** The one-byte version and three flag bytes that open most atoms. */
  const VersionFlags: seq<Field> := [Val("v", [B]), Val("flags", [B, B, B])]

  /** A table atom: version, flags, a hidden item count derived from the
      list, and the list with that many items. */
  function CountedList(kind: string, list: string, e: Elem): Layout
  {
    Layout(kind, VersionFlags + [Derived("nitems", [I], LenPlus(list, 0)), List(list, e, CountOf("nitems"))])
  }

  /** The component type, subtype, manufacturer and flags of a handler. */
  const HdlrComponent: seq<Field> := [
    Val("comp_type", [I]), Val("comp_subtype", [I]), Val("comp_manf", [I]),
    Val("comp_flags", [I]), Val("comp_flags_mask", [I])]

  /** The handler reference: its component name fills the atom after the
      8-byte header and the 24 bytes of fixed fields. */
  const Hdlr: Layout := Layout("hdlr", VersionFlags + HdlrComponent + [Str("comp_name", AtomSizeLess(32))])

  /** The times, track number and duration of a track header. */
  const TkhdTiming: seq<Field> := [
    Val("creation_time", [I]), Val("modification_time", [I]), Val("track_id", [I]),
    Pad(4), Val("duration", [I]), Pad(8)]

  /** The layering, volume and geometry of a track header. */
  const TkhdPlacement: seq<Field> := [
    Val("layer", [H]), Val("alternate_group", [H]), Val("volume", [H]), Pad(2),
    Val("matrix_structure", Repeat(I, 9)), Val("track_width", [I]), Val("track_height", [I])]

  const Tkhd: Layout := Layout("tkhd", VersionFlags + TkhdTiming + TkhdPlacement)

  const Mdhd: Layout := Layout("mdhd", VersionFlags + [
    Val("creation_time", [I]), Val("modification_time", [I]), Val("time_scale", [I]),
    Val("duration", [I]), Val("language", [H]), Val("quality", [H])])

  /** The times, time scale, duration, rate and volume of a movie header. */
  const MvhdTiming: seq<Field> := [
    Val("creation_time", [I]), Val("modification_time", [I]), Val("time_scale", [I]),
    Val("duration", [I]), Val("preferred_rate", [I]), Val("preferred_volume", [H]), Pad(10)]

  /** The matrix, preview and selection times and next track number of a movie header. */
  const MvhdTail: seq<Field> := [
    Val("matrix_structure", Repeat(I, 9)), Val("preview_time", [I]), Val("preview_duration", [I]),
    Val("post_time", [I]), Val("selection_time", [I]), Val("current_time", [I]),
    Val("next_track_id", [I])]

  const Mvhd: Layout := Layout("mvhd", VersionFlags + MvhdTiming + MvhdTail)

  const Stts: Layout := CountedList("stts", "table", Codes([I, I]))

  const SampleDescription: Layout := Layout("sample_description", [
    Derived("size", [I], LenPlus("data", 16)), Val("data_format", [I]), Pad(6),
    Val("data_reference_index", [H]), Str("data", LengthOf("size", 16))])

  const Stsd: Layout := CountedList("stsd", "descriptions", Sub(SampleDescription))

  const Stss: Layout := CountedList("stss", "table", Codes([I]))

  /** The sample size atom: with a non-zero uniform `size` there is no table. */
  const Stsz: Layout := Layout("stsz", VersionFlags + [
    Val("size", [I]), Derived("nitems", [I], LenIfZero("table", "size")),
    List("table", Codes([I]), CountIfZero("nitems", "size"))])

  const Stsc: Layout := CountedList("stsc", "table", Codes([I, I, I]))

  const Stco: Layout := CountedList("stco", "table", Codes([I]))

  /** A data reference whose hidden size is the data length plus `plus`,
      and whose data is read as the size less 12 bytes (size, tag, version
      and flags). */
  function DataReferenceWith(plus: nat): Layout
  {
    Layout("data_reference", [
      Derived("size", [I], LenPlus("data", plus)), Str("tag", Literal(4))] + VersionFlags + [
      Str("data", LengthOf("size", 12))])
  }

  /** The data reference as declared: its size getter adds 8. */
  const DataReferenceAsDeclared: Layout := DataReferenceWith(8)

  /** The data reference with the size getter adding the 12 header bytes the
      decoder subtracts. */
  const DataReference: Layout := DataReferenceWith(12)

  /** The dref table as written, with the data references as declared. */
  const Dref: Layout := CountedList("dref", "references", Sub(DataReferenceAsDeclared))

  /** The dref table with the corrected data references. */
  const DrefCorrected: Layout := CountedList("dref", "references", Sub(DataReference))

  const Vmhd: Layout := Layout("vmhd", VersionFlags + [Val("graphics_mode", [H]), Val("opcolor", [H, H, H])])

  /** A sub-atom type registered under the ASCII spelling of its name. */
  function Register(l: Layout): Entry
    requires |l.name| == 4 && forall i :: 0 <= i < 4 ==> l.name[i] as int < 128
  {
    Entry(Ascii(l.name), l)
  }

  const Stbl: Layout := Layout("stbl", [SubAtoms("atoms", [
    Register(Stts), Register(Stsd), Register(Stss), Register(Stsz), Register(Stsc), Register(Stco)])])

  const Dinf: Layout := Layout("dinf", [SubAtoms("refs", [Register(Dref)])])

  const Minf: Layout := Layout("minf", [SubAtoms("atoms", [Register(Vmhd), Register(Hdlr), Register(Dinf), Register(Stbl)])])

  const Mdia: Layout := Layout("mdia", [SubAtoms("atoms", [Register(Mdhd), Register(Minf), Register(Hdlr)])])

  const Trak: Layout := Layout("trak", [SubAtoms("atoms", [Register(Tkhd), Register(Mdia)])])

  const Moov: Layout := Layout("moov", [SubAtoms("atoms", [Register(Mvhd), Register(Trak)])])

  // ---------------------------------------------------------------------
  // Fixed-size headers

  /** The header atoms have the fixed sizes of their formats: a track
      header 84 bytes, a media header 24, a movie header 96 and a video
      media header 12. */
  lemma HeaderSizes()
    ensures StructSize(Tkhd) == Some(84)
    ensures StructSize(Mdhd) == Some(24)
    ensures StructSize(Mvhd) == Some(96)
    ensures StructSize(Vmhd) == Some(12)
  {
    TkhdSize();
    MdhdSize(Mdhd.fields);
    MvhdSize();
    VmhdSize(Vmhd.fields);
  }

  lemma TkhdSize()
    ensures StructSize(Tkhd) == Some(84)
  {
    VersionFlagsSize(VersionFlags);
    TkhdTimingSize(TkhdTiming);
    TkhdPlacementSize(TkhdPlacement);
    SizeOfAppend(VersionFlags, TkhdTiming);
    SizeOfAppend(VersionFlags + TkhdTiming, TkhdPlacement);
  }

  lemma MvhdSize()
    ensures StructSize(Mvhd) == Some(96)
  {
    VersionFlagsSize(VersionFlags);
    MvhdTimingSize(MvhdTiming);
    MvhdTailSize(MvhdTail);
    SizeOfAppend(VersionFlags, MvhdTiming);
    SizeOfAppend(VersionFlags + MvhdTiming, MvhdTail);
  }

  lemma VersionFlagsSize(fs: seq<Field>)
    requires fs == VersionFlags
    ensures SizeOfFields(fs) == Some(4)
  {
    assert |fs| == 2 && fs[2..] == [];
    SizeStep(fs, 1, 3, 0);
    SizeStep(fs, 0, 1, 3);
    assert fs[0..] == fs;
  }

  lemma TkhdTimingSize(fs: seq<Field>)
    requires fs == TkhdTiming
    ensures SizeOfFields(fs) == Some(28)
  {
    TkhdTimingSizeFrom3(fs);
    SizeStep(fs, 2, 4, 16);
    SizeStep(fs, 1, 4, 20);
    SizeStep(fs, 0, 4, 24);
    assert fs[0..] == fs;
  }

  lemma TkhdTimingSizeFrom3(fs: seq<Field>)
    requires fs == TkhdTiming
    ensures SizeOfFields(fs[3..]) == Some(16)
  {
    assert |fs| == 6 && fs[6..] == [];
    PadShape(4);
    PadShape(8);
    SizeStep(fs, 5, 8, 0);
    SizeStep(fs, 4, 4, 8);
    SizeStep(fs, 3, 4, 12);
  }

  lemma TkhdPlacementSize(fs: seq<Field>)
    requires fs == TkhdPlacement
    ensures SizeOfFields(fs) == Some(52)
  {
    TkhdPlacementSizeFrom2(fs);
    SizeStep(fs, 1, 2, 48);
    SizeStep(fs, 0, 2, 50);
    assert fs[0..] == fs;
  }

  lemma TkhdPlacementSizeFrom2(fs: seq<Field>)
    requires fs == TkhdPlacement
    ensures SizeOfFields(fs[2..]) == Some(48)
  {
    TkhdPlacementSizeFrom4(fs);
    assert FieldSize(fs[3]) == Some(2) by {
      PadShape(2);
    }
    SizeStep(fs, 3, 2, 44);
    SizeStep(fs, 2, 2, 46);
  }

  lemma TkhdPlacementSizeFrom4(fs: seq<Field>)
    requires fs == TkhdPlacement
    ensures SizeOfFields(fs[4..]) == Some(44)
  {
    assert |fs| == 7 && fs[7..] == [];
    RepeatSize(I, 9);
    SizeStep(fs, 6, 4, 0);
    SizeStep(fs, 5, 4, 4);
    SizeStep(fs, 4, 36, 8);
  }

  lemma MvhdTimingSize(fs: seq<Field>)
    requires fs == MvhdTiming
    ensures SizeOfFields(fs) == Some(32)
  {
    MvhdTimingSizeFrom4(fs);
    SizeStep(fs, 3, 4, 16);
    SizeStep(fs, 2, 4, 20);
    SizeStep(fs, 1, 4, 24);
    SizeStep(fs, 0, 4, 28);
    assert fs[0..] == fs;
  }

  lemma MvhdTimingSizeFrom4(fs: seq<Field>)
    requires fs == MvhdTiming
    ensures SizeOfFields(fs[4..]) == Some(16)
  {
    assert |fs| == 7 && fs[7..] == [];
    PadShape(10);
    SizeStep(fs, 6, 10, 0);
    SizeStep(fs, 5, 2, 10);
    SizeStep(fs, 4, 4, 12);
  }

  lemma MvhdTailSize(fs: seq<Field>)
    requires fs == MvhdTail
    ensures SizeOfFields(fs) == Some(60)
  {
    MvhdTailSizeFrom3(fs);
    RepeatSize(I, 9);
    SizeStep(fs, 2, 4, 16);
    SizeStep(fs, 1, 4, 20);
    SizeStep(fs, 0, 36, 24);
    assert fs[0..] == fs;
  }

  lemma MvhdTailSizeFrom3(fs: seq<Field>)
    requires fs == MvhdTail
    ensures SizeOfFields(fs[3..]) == Some(16)
  {
    assert |fs| == 7 && fs[7..] == [];
    SizeStep(fs, 6, 4, 0);
    SizeStep(fs, 5, 4, 4);
    SizeStep(fs, 4, 4, 8);
    SizeStep(fs, 3, 4, 12);
  }

  lemma MdhdSize(fs: seq<Field>)
    requires fs == Mdhd.fields
    ensures SizeOfFields(fs) == Some(24)
  {
    assert |fs| == 8 && fs[8..] == [];
    SizeStep(fs, 7, 2, 0);
    SizeStep(fs, 6, 2, 2);
    SizeStep(fs, 5, 4, 4);
    SizeStep(fs, 4, 4, 8);
    SizeStep(fs, 3, 4, 12);
    SizeStep(fs, 2, 4, 16);
    SizeStep(fs, 1, 3, 20);
    SizeStep(fs, 0, 1, 23);
    assert fs[0..] == fs;
  }

  lemma VmhdSize(fs: seq<Field>)
    requires fs == Vmhd.fields
    ensures SizeOfFields(fs) == Some(12)
  {
    assert |fs| == 4 && fs[4..] == [];
    SizeStep(fs, 3, 6, 0);
    SizeStep(fs, 2, 2, 6);
    SizeStep(fs, 1, 3, 8);
    SizeStep(fs, 0, 1, 11);
    assert fs[0..] == fs;
  }

  /** The size of two runs of fields is the sum of their sizes. */
  lemma {:induction false} SizeOfAppend(a: seq<Field>, b: seq<Field>)
    requires SizeOfFields(a).Some? && SizeOfFields(b).Some?
    ensures SizeOfFields(a + b) == Some(SizeOfFields(a).value + SizeOfFields(b).value)
  {
    if a == [] {
      assert a + b == b;
    } else {
      assert (a + b)[0] == a[0] && (a + b)[1..] == a[1..] + b;
      SizeOfAppend(a[1..], b);
      assert SizeOfFields(a) == Some(FieldSize(a[0]).value + SizeOfFields(a[1..]).value);
    }
  }

  /** The fields from index `k` on take the size of field `k` plus the
      size of the fields after it. */
  lemma SizeStep(fs: seq<Field>, k: nat, n: nat, m: nat)
    requires k < |fs| && FieldSize(fs[k]) == Some(n) && SizeOfFields(fs[k + 1..]) == Some(m)
    ensures SizeOfFields(fs[k..]) == Some(n + m)
  {
    assert fs[k..][0] == fs[k] && fs[k..][1..] == fs[k + 1..];
  }

  /** A repeated code takes its width once per repetition. */
  lemma {:induction false} RepeatSize(c: Code, n: nat)
    ensures FormatSize(Repeat(c, n)) == n * Width(c)
  {
    if n > 0 {
      var r := Repeat(c, n);
      assert r[0] == c && r[1..] == Repeat(c, n - 1);
      RepeatSize(c, n - 1);
    }
  }

  /** So a track header encodes to 84 bytes, and decodes exactly when 84
      bytes remain, consuming them; with fewer it is an `UnpackError`. */
  lemma TkhdFixed(vals: seq<Value>, s: Stream, atom: Option<nat>)
    ensures EncodeRecord(Tkhd, vals).Ok? ==> |EncodeRecord(Tkhd, vals).value| == 84
    ensures DecodeRecord(Tkhd, s, atom).Ok? <==> s.Available() >= 84
    ensures DecodeRecord(Tkhd, s, atom).Ok? ==> DecodeRecord(Tkhd, s, atom).value.1 == Stream(s.data, s.pos + 84)
    ensures DecodeRecord(Tkhd, s, atom).Err? ==> DecodeRecord(Tkhd, s, atom).error == UnpackError
  {
    HeaderSizes();
    if EncodeRecord(Tkhd, vals).Ok? {
      FixedEncodeSize(Tkhd, vals);
    }
    FixedDecode(Tkhd, s, atom);
  }

  /** A media header encodes to 24 bytes and decodes exactly when 24 remain. */
  lemma MdhdFixed(vals: seq<Value>, s: Stream, atom: Option<nat>)
    ensures EncodeRecord(Mdhd, vals).Ok? ==> |EncodeRecord(Mdhd, vals).value| == 24
    ensures DecodeRecord(Mdhd, s, atom).Ok? <==> s.Available() >= 24
    ensures DecodeRecord(Mdhd, s, atom).Ok? ==> DecodeRecord(Mdhd, s, atom).value.1 == Stream(s.data, s.pos + 24)
  {
    HeaderSizes();
    if EncodeRecord(Mdhd, vals).Ok? {
      FixedEncodeSize(Mdhd, vals);
    }
    FixedDecode(Mdhd, s, atom);
  }

  /** A movie header encodes to 96 bytes and decodes exactly when 96 remain. */
  lemma MvhdFixed(vals: seq<Value>, s: Stream, atom: Option<nat>)
    ensures EncodeRecord(Mvhd, vals).Ok? ==> |EncodeRecord(Mvhd, vals).value| == 96
    ensures DecodeRecord(Mvhd, s, atom).Ok? <==> s.Available() >= 96
    ensures DecodeRecord(Mvhd, s, atom).Ok? ==> DecodeRecord(Mvhd, s, atom).value.1 == Stream(s.data, s.pos + 96)
  {
    HeaderSizes();
    if EncodeRecord(Mvhd, vals).Ok? {
      FixedEncodeSize(Mvhd, vals);
    }
    FixedDecode(Mvhd, s, atom);
  }

  /** A video media header encodes to 12 bytes and decodes exactly when 12 remain. */
  lemma VmhdFixed(vals: seq<Value>, s: Stream, atom: Option<nat>)
    ensures EncodeRecord(Vmhd, vals).Ok? ==> |EncodeRecord(Vmhd, vals).value| == 12
    ensures DecodeRecord(Vmhd, s, atom).Ok? <==> s.Available() >= 12
    ensures DecodeRecord(Vmhd, s, atom).Ok? ==> DecodeRecord(Vmhd, s, atom).value.1 == Stream(s.data, s.pos + 12)
  {
    HeaderSizes();
    if EncodeRecord(Vmhd, vals).Ok? {
      FixedEncodeSize(Vmhd, vals);
    }
    FixedDecode(Vmhd, s, atom);
  }

  // ---------------------------------------------------------------------
  // The handler reference

  /** Decoding the handler reference in an atom of declared size `n`: it
      succeeds exactly when `n` covers the 8-byte header and the 24 fixed
      bytes and the stream holds the `n - 8` bytes of the body; the
      component name, the last value, is then the `n - 32` bytes after the
      fixed fields. Every failure is an unpacking error. */
  lemma HdlrCompName(s: Stream, n: nat)
    ensures DecodeRecord(Hdlr, s, Some(n)).Ok? <==> n >= 32 && s.Available() >= n - 8
    ensures DecodeRecord(Hdlr, s, Some(n)).Err? ==> DecodeRecord(Hdlr, s, Some(n)).error == UnpackError
    ensures DecodeRecord(Hdlr, s, Some(n)).Ok? ==>
              var (r, s1) := DecodeRecord(Hdlr, s, Some(n)).value;
              && s1 == Stream(s.data, s.pos + n - 8)
              && r.Rec? && r.kind == "hdlr" && |r.fields| > 0
              && r.fields[|r.fields| - 1] == Blob(s.data[s.pos + 24..s.pos + n - 8])
              && |r.fields[|r.fields| - 1].bytes| == n - 32
  {
    HdlrFixedSize(VersionFlags + HdlrComponent);
    StrAfterFixed(Hdlr, VersionFlags + HdlrComponent, 24, "comp_name", 32, s, n);
  }

  lemma HdlrFixedSize(fs: seq<Field>)
    requires fs == VersionFlags + HdlrComponent
    ensures SizeOfFields(fs) == Some(24)
  {
    VersionFlagsSize(VersionFlags);
    HdlrComponentSize(HdlrComponent);
    SizeOfAppend(VersionFlags, HdlrComponent);
  }

  lemma HdlrComponentSize(fs: seq<Field>)
    requires fs == HdlrComponent
    ensures SizeOfFields(fs) == Some(20)
  {
    assert |fs| == 5 && fs[5..] == [];
    SizeStep(fs, 4, 4, 0);
    SizeStep(fs, 3, 4, 4);
    SizeStep(fs, 2, 4, 8);
    SizeStep(fs, 1, 4, 12);
    SizeStep(fs, 0, 4, 16);
    assert fs[0..] == fs;
  }

  /** A record of fixed fields of `m` bytes followed by a string that fills
      the atom up to its declared size `n` less `less` bytes. */
  lemma StrAfterFixed(l: Layout, pre: seq<Field>, m: nat, name: string, less: nat, s: Stream, n: nat)
    requires SizeOfFields(pre) == Some(m) && m > 0 && name != "" && less >= m
    requires l.fields == pre + [Str(name, AtomSizeLess(less))]
    ensures && (DecodeRecord(l, s, Some(n)).Ok? <==> n >= less && s.Available() >= m + n - less)
            && (DecodeRecord(l, s, Some(n)).Err? ==> DecodeRecord(l, s, Some(n)).error == UnpackError)
            && (DecodeRecord(l, s, Some(n)).Ok? ==>
                  var (r, s1) := DecodeRecord(l, s, Some(n)).value;
                  && s1 == Stream(s.data, s.pos + m + n - less)
                  && r.Rec? && r.kind == l.name && |r.fields| > 0
                  && r.fields[|r.fields| - 1] == Blob(s.data[s.pos + m..s.pos + m + n - less]))
  {
    var f := Str(name, AtomSizeLess(less));
    StrAfterFixedFields(pre, m, name, less, s, n);
    var r := DecodeFields(l.fields, s, NewCtx(Some(n)));
    if r.Ok? {
      var (c, s1) := r.value;
      VisibleNamesAppend(pre, [f]);
      var names := VisibleNames(l.fields);
      assert names == VisibleNames(pre) + [name];
      LastBound(l, c.init, name);
    }
  }

  /** The fields of such a record: the fixed fields, then the string. */
  lemma StrAfterFixedFields(pre: seq<Field>, m: nat, name: string, less: nat, s: Stream, n: nat)
    requires SizeOfFields(pre) == Some(m) && m > 0 && name != "" && less >= m
    ensures var r := DecodeFields(pre + [Str(name, AtomSizeLess(less))], s, NewCtx(Some(n)));
            && (r.Ok? <==> n >= less && s.Available() >= m + n - less)
            && (r.Err? ==> r.error == UnpackError)
            && (r.Ok? ==>
                  && r.value.1 == Stream(s.data, s.pos + m + n - less)
                  && (forall k :: 0 <= k < |VisibleNames(pre)| ==> VisibleNames(pre)[k] in r.value.0.init)
                  && name in r.value.0.init
                  && r.value.0.init[name] == Blob(s.data[s.pos + m..s.pos + m + n - less]))
  {
    var f := Str(name, AtomSizeLess(less));
    var ctx := NewCtx(Some(n));
    FixedFieldsDecode(pre, s, ctx);
    DecodeFieldsAppend(pre, [f], s, ctx);
    if DecodeFields(pre, s, ctx).Ok? {
      var (c, s1) := DecodeFields(pre, s, ctx).value;
      DecodeFieldsAtom(pre, s, ctx);
      DecodeStr(name, AtomSizeLess(less), s1, c);
      if DecodeField(f, s1, c).Ok? {
        var (x, s2) := DecodeField(f, s1, c).value;
        DecodeFieldsCons([f], s1, c, x, s2);
        assert [f][1..] == [];
      }
    }
  }

  /** Constructing a record from bindings that cover its visible names, the
      last of which is `name`: the last value is the one bound to `name`. */
  lemma LastBound(l: Layout, init: map<string, Value>, name: string)
    requires var names := VisibleNames(l.fields);
             |names| > 0 && names[|names| - 1] == name && forall k :: 0 <= k < |names| ==> names[k] in init
    ensures Construct(l, [], init).Ok?
    ensures |Construct(l, [], init).value| > 0
    ensures Construct(l, [], init).value[|Construct(l, [], init).value| - 1] == init[name]
  {
    var names := VisibleNames(l.fields);
    assert names[..0] == [];
  }

  // ---------------------------------------------------------------------
  // Counted tables

  /** The visible fields of a table atom, and the declaration of its hidden count. */
  lemma CountedListNames(kind: string, list: string, e: Elem)
    requires list != "v" && list != "flags" && list != "nitems" && list != ""
    ensures VisibleNames(CountedList(kind, list, e).fields) == ["v", "flags", list]
    ensures Declared(CountedList(kind, list, e).fields, "nitems") == Some(Derived("nitems", [I], LenPlus(list, 0)))
    ensures Distinct(VisibleNames(CountedList(kind, list, e).fields))
  {
    var fs := CountedList(kind, list, e).fields;
    var f0, f1, f2, f3 := fs[0], fs[1], fs[2], fs[3];
    assert fs == [f0, f1, f2, f3];
    assert fs[1..] == [f1, f2, f3] && fs[2..] == [f2, f3] && fs[3..] == [f3] && fs[4..] == [];
    assert VisibleNames(fs[3..]) == [list];
    assert VisibleNames(fs[2..]) == [list];
    assert fs[..3] == [f0, f1, f2];
  }

  /** The attributes of a table atom: its three visible fields, and the
      count, which is the length of the list. */
  lemma CountedListAttrs(kind: string, list: string, e: Elem, vals: seq<Value>)
    requires list != "v" && list != "flags" && list != "nitems" && list != ""
    requires |vals| == 3
    ensures var l := CountedList(kind, list, e);
            && GetAttr(l, vals, "v") == Ok(vals[0])
            && GetAttr(l, vals, "flags") == Ok(vals[1])
            && GetAttr(l, vals, list) == Ok(vals[2])
            && GetAttr(l, vals, "nitems") == (var n :- Len(vals[2]); Ok(Num(n)))
  {
    var l := CountedList(kind, list, e);
    CountedListNames(kind, list, e);
    GetAttrAt(l, vals, 0);
    GetAttrAt(l, vals, 1);
    GetAttrAt(l, vals, 2);
    GetAttrDerived(l, vals, "nitems", LenPlus(list, 0), [I]);
  }

  /** The values of a table atom survive encoding and decoding exactly when
      version and flags are in byte range, the list has fewer than 2^32
      items (its count is packed as a u32) and every item round-trips. */
  lemma CountedListTrips(kind: string, list: string, e: Elem, vals: seq<Value>, atom: Option<nat>)
    requires list != "v" && list != "flags" && list != "nitems" && list != ""
    ensures RecordTrips(CountedList(kind, list, e), vals, atom) <==>
              && |vals| == 3
              && CodesTrip([B], vals[0]) && CodesTrip([B, B, B], vals[1])
              && vals[2].Items? && |vals[2].items| < U32_LIMIT && ItemsTrip(e, vals[2].items)
  {
    CountedListNames(kind, list, e);
    if |vals| == 3 {
      CountedListAttrs(kind, list, e, vals);
      CountedListFields(kind, list, e, vals, NewCtx(atom));
    }
  }

  lemma CountedListFields(kind: string, list: string, e: Elem, vals: seq<Value>, c0: Ctx)
    requires list != "v" && list != "flags" && list != "nitems" && list != ""
    requires |vals| == 3
    ensures FieldsTrip(CountedList(kind, list, e), CountedList(kind, list, e).fields, vals, c0) <==>
              && CodesTrip([B], vals[0]) && CodesTrip([B, B, B], vals[1])
              && vals[2].Items? && |vals[2].items| < U32_LIMIT && ItemsTrip(e, vals[2].items)
  {
    var l := CountedList(kind, list, e);
    var fs := l.fields;
    CountedListAttrs(kind, list, e, vals);
    var c1 := Record(c0, fs[0], vals[0]);
    var c2 := Record(c1, fs[1], vals[1]);
    assert FieldsTrip(l, fs, vals, c0) <==> CodesTrip([B], vals[0]) && FieldsTrip(l, fs[1..], vals, c1);
    assert FieldsTrip(l, fs[1..], vals, c1) <==> CodesTrip([B, B, B], vals[1]) && FieldsTrip(l, fs[2..], vals, c2);
    CountedListTail(kind, list, e, vals, c2);
  }

  lemma CountedListTail(kind: string, list: string, e: Elem, vals: seq<Value>, c2: Ctx)
    requires list != "v" && list != "flags" && list != "nitems" && list != ""
    requires |vals| == 3
    ensures FieldsTrip(CountedList(kind, list, e), CountedList(kind, list, e).fields[2..], vals, c2) <==>
              vals[2].Items? && |vals[2].items| < U32_LIMIT && ItemsTrip(e, vals[2].items)
  {
    var l := CountedList(kind, list, e);
    var fs := l.fields;
    CountedListAttrs(kind, list, e, vals);
    var nitems := GetAttr(l, vals, "nitems");
    assert fs[2..][1..] == [fs[3]] && fs[2..][1..][1..] == [];
    if vals[2].Items? {
      var xs := vals[2].items;
      var c3 := Record(c2, fs[2], Num(|xs|));
      assert EvalCount(CountOf("nitems"), c3) == Ok(|xs|);
      assert FieldsTrip(l, fs[3..], vals, c3) <==> ItemsTrip(e, xs);
      CodesTripU32(|xs|);
      assert FieldsTrip(l, fs[2..], vals, c2) <==> CodesTrip([I], Num(|xs|)) && FieldsTrip(l, fs[3..], vals, c3);
    } else if nitems.Ok? {
      var c3 := Record(c2, fs[2], nitems.value);
      assert !FieldTrips(fs[3], vals[2], c3);
    }
  }

  /** A single `>I` value round-trips exactly when it is in the u32 range. */
  lemma CodesTripU32(n: int)
    ensures CodesTrip([I], Num(n)) <==> 0 <= n < U32_LIMIT
  {
    assert [I][1..] == [];
  }

  // ---------------------------------------------------------------------
  // The sample size atom

  lemma StszNames()
    ensures VisibleNames(Stsz.fields) == ["v", "flags", "size", "table"]
    ensures Declared(Stsz.fields, "nitems") == Some(Derived("nitems", [I], LenIfZero("table", "size")))
    ensures Distinct(VisibleNames(Stsz.fields))
  {
    var fs := Stsz.fields;
    var f0, f1, f2, f3, f4 := fs[0], fs[1], fs[2], fs[3], fs[4];
    assert fs == [f0, f1, f2, f3, f4];
    assert fs[1..] == [f1, f2, f3, f4] && fs[2..] == [f2, f3, f4] && fs[3..] == [f3, f4] && fs[4..] == [f4] && fs[5..] == [];
    assert VisibleNames(fs[4..]) == ["table"];
    assert VisibleNames(fs[3..]) == ["table"];
    assert VisibleNames(fs[2..]) == ["size", "table"];
    assert fs[..4] == [f0, f1, f2, f3];
  }

  /** The attributes of an `stsz` record: the count is the table length when
      the uniform size is zero, and zero otherwise. */
  lemma StszAttrs(vals: seq<Value>)
    requires |vals| == 4
    ensures GetAttr(Stsz, vals, "v") == Ok(vals[0])
    ensures GetAttr(Stsz, vals, "flags") == Ok(vals[1])
    ensures GetAttr(Stsz, vals, "size") == Ok(vals[2])
    ensures GetAttr(Stsz, vals, "table") == Ok(vals[3])
    ensures GetAttr(Stsz, vals, "nitems") == (if vals[2] == Num(0) then (var n :- Len(vals[3]); Ok(Num(n))) else Ok(Num(0)))
  {
    StszNames();
    GetAttrAt(Stsz, vals, 0);
    GetAttrAt(Stsz, vals, 1);
    GetAttrAt(Stsz, vals, 2);
    GetAttrAt(Stsz, vals, 3);
    StszCount(vals);
  }

  lemma StszCount(vals: seq<Value>)
    requires |vals| == 4
    ensures GetAttr(Stsz, vals, "nitems") == (if vals[2] == Num(0) then (var n :- Len(vals[3]); Ok(Num(n))) else Ok(Num(0)))
  {
    StszNames();
    GetAttrAt(Stsz, vals, 2);
    GetAttrAt(Stsz, vals, 3);
    GetAttrDerived(Stsz, vals, "nitems", LenIfZero("table", "size"), [I]);
  }

  /** The values of an `stsz` record survive encoding and decoding exactly
      when each is in range and, if the uniform size is not zero, the table
      is empty: the count written for a non-zero size is zero, so a table
      there would not be read back. */
  lemma StszTrips(vals: seq<Value>, atom: Option<nat>)
    ensures RecordTrips(Stsz, vals, atom) <==>
              && |vals| == 4
              && CodesTrip([B], vals[0]) && CodesTrip([B, B, B], vals[1]) && CodesTrip([I], vals[2])
              && vals[3].Items? && |vals[3].items| < U32_LIMIT && ItemsTrip(Codes([I]), vals[3].items)
              && (vals[2] == Num(0) || vals[3].items == [])
  {
    StszNames();
    if |vals| == 4 {
      StszAttrs(vals);
      StszFields(vals, NewCtx(atom));
    }
  }

  lemma StszFields(vals: seq<Value>, c0: Ctx)
    requires |vals| == 4
    ensures FieldsTrip(Stsz, Stsz.fields, vals, c0) <==>
              && CodesTrip([B], vals[0]) && CodesTrip([B, B, B], vals[1]) && CodesTrip([I], vals[2])
              && vals[3].Items? && |vals[3].items| < U32_LIMIT && ItemsTrip(Codes([I]), vals[3].items)
              && (vals[2] == Num(0) || vals[3].items == [])
  {
    var fs := Stsz.fields;
    StszAttrs(vals);
    var c1 := Record(c0, fs[0], vals[0]);
    var c2 := Record(c1, fs[1], vals[1]);
    var c3 := Record(c2, fs[2], vals[2]);
    assert FieldsTrip(Stsz, fs, vals, c0) <==> CodesTrip([B], vals[0]) && FieldsTrip(Stsz, fs[1..], vals, c1);
    assert FieldsTrip(Stsz, fs[1..], vals, c1) <==> CodesTrip([B, B, B], vals[1]) && FieldsTrip(Stsz, fs[2..], vals, c2);
    assert FieldsTrip(Stsz, fs[2..], vals, c2) <==> CodesTrip([I], vals[2]) && FieldsTrip(Stsz, fs[3..], vals, c3);
    StszTail(vals, c3);
  }

  lemma StszTail(vals: seq<Value>, c3: Ctx)
    requires |vals| == 4
    requires "size" in c3.values && c3.values["size"] == vals[2]
    ensures FieldsTrip(Stsz, Stsz.fields[3..], vals, c3) <==>
              && vals[3].Items? && |vals[3].items| < U32_LIMIT && ItemsTrip(Codes([I]), vals[3].items)
              && (vals[2] == Num(0) || vals[3].items == [])
  {
    if vals[3].Items? {
      StszTailItems(vals, c3);
    } else {
      StszTailOther(vals, c3);
    }
  }

  lemma StszTailItems(vals: seq<Value>, c3: Ctx)
    requires |vals| == 4 && vals[3].Items?
    requires "size" in c3.values && c3.values["size"] == vals[2]
    ensures FieldsTrip(Stsz, Stsz.fields[3..], vals, c3) <==>
              && |vals[3].items| < U32_LIMIT && ItemsTrip(Codes([I]), vals[3].items)
              && (vals[2] == Num(0) || vals[3].items == [])
  {
    var fs := Stsz.fields;
    var f3 := Derived("nitems", [I], LenIfZero("table", "size"));
    assert fs[3..][0] == f3 && fs[3..][1..] == fs[4..];
    StszCount(vals);
    var n := if vals[2] == Num(0) then |vals[3].items| else 0;
    assert GetAttr(Stsz, vals, "nitems") == Ok(Num(n));
    StszTable(vals, Record(c3, fs[3], Num(n)), n);
    CodesTripU32(n);
  }

  lemma StszTailOther(vals: seq<Value>, c3: Ctx)
    requires |vals| == 4 && !vals[3].Items?
    ensures !FieldsTrip(Stsz, Stsz.fields[3..], vals, c3)
  {
    var fs := Stsz.fields;
    StszAttrs(vals);
    assert fs[3..][1..] == fs[4..];
    var nitems := GetAttr(Stsz, vals, "nitems");
    if nitems.Ok? {
      var c4 := Record(c3, fs[3], nitems.value);
      assert !FieldTrips(fs[4], vals[3], c4);
    }
  }

  lemma StszTable(vals: seq<Value>, c4: Ctx, n: nat)
    requires |vals| == 4 && vals[3].Items?
    requires "size" in c4.values && c4.values["size"] == vals[2]
    requires "nitems" in c4.values && c4.values["nitems"] == Num(n)
    requires n == if vals[2] == Num(0) then |vals[3].items| else 0
    ensures FieldsTrip(Stsz, Stsz.fields[4..], vals, c4) <==>
              (vals[2] == Num(0) || vals[3].items == []) && ItemsTrip(Codes([I]), vals[3].items)
  {
    var fs := Stsz.fields;
    StszAttrs(vals);
    assert fs[4..][1..] == [];
    assert EvalCount(CountIfZero("nitems", "size"), c4) == Ok(n);
  }

  /** Padding packs no values and occupies its width. */
  lemma {:induction false} PadShape(n: nat)
    ensures Arity(Repeat(X, n)) == 0 && FormatSize(Repeat(X, n)) == n
  {
    if n > 0 {
      assert Repeat(X, n)[1..] == Repeat(X, n - 1);
      PadShape(n - 1);
    }
  }

  // ---------------------------------------------------------------------
  // Sample descriptions

  lemma SampleDescriptionNames()
    ensures VisibleNames(SampleDescription.fields) == ["data_format", "data_reference_index", "data"]
    ensures Declared(SampleDescription.fields, "size") == Some(Derived("size", [I], LenPlus("data", 16)))
    ensures Distinct(VisibleNames(SampleDescription.fields))
  {
    SampleDescriptionVisible();
    SampleDescriptionDeclared();
    assert |"data_format"| == 11 && |"data_reference_index"| == 20 && |"data"| == 4;
  }

  lemma SampleDescriptionVisible()
    ensures VisibleNames(SampleDescription.fields) == ["data_format", "data_reference_index", "data"]
  {
    var f0, f1, f2, f3, f4 := Derived("size", [I], LenPlus("data", 16)), Val("data_format", [I]), Pad(6),
      Val("data_reference_index", [H]), Str("data", LengthOf("size", 16));
    var fs := [f0, f1, f2, f3, f4];
    assert SampleDescription.fields == fs;
    assert fs[1..] == [f1, f2, f3, f4] && fs[2..] == [f2, f3, f4] && fs[3..] == [f3, f4] && fs[4..] == [f4] && fs[5..] == [];
    assert VisibleNames([f4]) == ["data"];
    assert VisibleNames([f3, f4]) == ["data_reference_index", "data"];
    assert VisibleNames([f1, f2, f3, f4]) == ["data_format", "data_reference_index", "data"];
  }

  lemma SampleDescriptionDeclared()
    ensures Declared(SampleDescription.fields, "size") == Some(Derived("size", [I], LenPlus("data", 16)))
  {
    var f0, f1, f2, f3, f4 := Derived("size", [I], LenPlus("data", 16)), Val("data_format", [I]), Pad(6),
      Val("data_reference_index", [H]), Str("data", LengthOf("size", 16));
    var fs := [f0, f1, f2, f3, f4];
    assert SampleDescription.fields == fs;
    assert fs[..4] == [f0, f1, f2, f3];
    assert Declared(fs, "size") == Declared([f0, f1, f2, f3], "size");
    assert [f0, f1, f2, f3][..3] == [f0, f1, f2];
    assert Declared([f0, f1, f2, f3], "size") == Declared([f0, f1, f2], "size");
    assert [f0, f1, f2][..2] == [f0, f1];
    assert Declared([f0, f1, f2], "size") == Declared([f0, f1], "size");
    assert [f0, f1][..1] == [f0];
    assert Declared([f0, f1], "size") == Declared([f0], "size");
  }

  /** The values of a sample description survive encoding and decoding
      exactly when the format and reference index are in range and the
      description's size, its data length plus 16, fits in a u32. */
  lemma SampleDescriptionTrips(vals: seq<Value>, atom: Option<nat>)
    ensures RecordTrips(SampleDescription, vals, atom) <==>
              && |vals| == 3 && CodesTrip([I], vals[0]) && CodesTrip([H], vals[1])
              && vals[2].Blob? && |vals[2].bytes| + 16 < U32_LIMIT
  {
    SampleDescriptionNames();
    if |vals| == 3 {
      SampleDescriptionFields(vals, NewCtx(atom));
    }
  }

  lemma SampleDescriptionFields(vals: seq<Value>, c0: Ctx)
    requires |vals| == 3
    ensures FieldsTrip(SampleDescription, SampleDescription.fields, vals, c0) <==>
              && CodesTrip([I], vals[0]) && CodesTrip([H], vals[1])
              && vals[2].Blob? && |vals[2].bytes| + 16 < U32_LIMIT
  {
    if Len(vals[2]).Ok? {
      SampleDescriptionSizedU32(vals, c0, Len(vals[2]).value);
    } else {
      SampleDescriptionNoSize(vals, c0);
    }
  }

  /** The hidden size attribute is the data length plus 16. */
  lemma SampleDescriptionSize(vals: seq<Value>, n: int)
    requires |vals| == 3 && Len(vals[2]) == Ok(n)
    ensures GetAttr(SampleDescription, vals, "size") == Ok(Num(n + 16))
  {
    SampleDescriptionNames();
    GetAttrLenPlus(SampleDescription, vals, "size", 2, 16, [I], n);
  }

  /** Data without a length gives no size, and so no round trip. */
  lemma SampleDescriptionNoSize(vals: seq<Value>, c0: Ctx)
    requires |vals| == 3 && Len(vals[2]).Err?
    ensures !FieldsTrip(SampleDescription, SampleDescription.fields, vals, c0)
  {
    SampleDescriptionNames();
    GetAttrLenPlusErr(SampleDescription, vals, "size", 2, 16, [I]);
    assert SampleDescription.fields[0].name == "size";
  }

  lemma SampleDescriptionSizedU32(vals: seq<Value>, c0: Ctx, n: int)
    requires |vals| == 3 && Len(vals[2]) == Ok(n)
    ensures FieldsTrip(SampleDescription, SampleDescription.fields, vals, c0) <==>
              && CodesTrip([I], vals[0]) && CodesTrip([H], vals[1])
              && vals[2].Blob? && n + 16 < U32_LIMIT
  {
    SampleDescriptionSize(vals, n);
    SampleDescriptionSized(vals, c0, n);
    CodesTripU32(n + 16);
  }

  lemma SampleDescriptionSized(vals: seq<Value>, c0: Ctx, n: int)
    requires |vals| == 3 && Len(vals[2]) == Ok(n)
    requires GetAttr(SampleDescription, vals, "size") == Ok(Num(n + 16))
    ensures FieldsTrip(SampleDescription, SampleDescription.fields, vals, c0) <==>
              CodesTrip([I], Num(n + 16)) && (CodesTrip([I], vals[0]) && CodesTrip([H], vals[1]) && vals[2].Blob?)
  {
    var c1 := Record(c0, Derived("size", [I], LenPlus("data", 16)), Num(n + 16));
    RecordedSize(c0, n);
    SampleDescriptionSizeStep(vals, c0, n);
    SampleDescriptionBody(vals, c1);
  }

  /** Recording the derived size makes it visible to the fields after it. */
  lemma RecordedSize(c0: Ctx, n: int)
    ensures var c1 := Record(c0, Derived("size", [I], LenPlus("data", 16)), Num(n + 16));
            "size" in c1.values && c1.values["size"] == Num(n + 16)
  {
  }

  lemma SampleDescriptionSizeStep(vals: seq<Value>, c0: Ctx, n: int)
    requires |vals| == 3 && Len(vals[2]) == Ok(n)
    requires GetAttr(SampleDescription, vals, "size") == Ok(Num(n + 16))
    ensures FieldsTrip(SampleDescription, SampleDescription.fields, vals, c0) <==>
              CodesTrip([I], Num(n + 16)) &&
              FieldsTrip(SampleDescription, SampleDescription.fields[1..], vals, Record(c0, Derived("size", [I], LenPlus("data", 16)), Num(n + 16)))
  {
    var l := SampleDescription;
    assert l.fields[0] == Derived("size", [I], LenPlus("data", 16));
    TripNamed(l, l.fields, vals, c0, Num(n + 16));
  }

  lemma SampleDescriptionBody(vals: seq<Value>, c1: Ctx)
    requires |vals| == 3
    requires "size" in c1.values && Len(vals[2]).Ok? && c1.values["size"] == Num(Len(vals[2]).value + 16)
    ensures FieldsTrip(SampleDescription, SampleDescription.fields[1..], vals, c1) <==>
              CodesTrip([I], vals[0]) && CodesTrip([H], vals[1]) && vals[2].Blob?
  {
    var l := SampleDescription;
    var g1, g2, g3, g4 := Val("data_format", [I]), Pad(6), Val("data_reference_index", [H]), Str("data", LengthOf("size", 16));
    assert l.fields[1..] == [g1, g2, g3, g4];
    SampleDescriptionNames();
    GetAttrAt(l, vals, 0);
    var c2 := Record(c1, g1, vals[0]);
    TripNamed(l, [g1, g2, g3, g4], vals, c1, vals[0]);
    assert [g1, g2, g3, g4][1..] == [g2, g3, g4];
    SampleDescriptionPad(vals, c2);
  }

  lemma SampleDescriptionPad(vals: seq<Value>, c2: Ctx)
    requires |vals| == 3
    requires "size" in c2.values && Len(vals[2]).Ok? && c2.values["size"] == Num(Len(vals[2]).value + 16)
    ensures FieldsTrip(SampleDescription, [Pad(6), Val("data_reference_index", [H]), Str("data", LengthOf("size", 16))], vals, c2) <==>
              CodesTrip([H], vals[1]) && vals[2].Blob?
  {
    var l := SampleDescription;
    var g2, g3, g4 := Pad(6), Val("data_reference_index", [H]), Str("data", LengthOf("size", 16));
    PadShape(6);
    TripUnnamed(l, [g2, g3, g4], vals, c2);
    assert [g2, g3, g4][1..] == [g3, g4];
    SampleDescriptionTail(vals, Record(c2, g2, Nums([])));
  }

  lemma SampleDescriptionTail(vals: seq<Value>, c3: Ctx)
    requires |vals| == 3
    requires "size" in c3.values && Len(vals[2]).Ok? && c3.values["size"] == Num(Len(vals[2]).value + 16)
    ensures FieldsTrip(SampleDescription, [Val("data_reference_index", [H]), Str("data", LengthOf("size", 16))], vals, c3) <==>
              CodesTrip([H], vals[1]) && vals[2].Blob?
  {
    var l := SampleDescription;
    var g3, g4 := Val("data_reference_index", [H]), Str("data", LengthOf("size", 16));
    SampleDescriptionNames();
    GetAttrAt(l, vals, 1);
    GetAttrAt(l, vals, 2);
    var c4 := Record(c3, g3, vals[1]);
    TripNamed(l, [g3, g4], vals, c3, vals[1]);
    assert [g3, g4][1..] == [g4];
    TripNamed(l, [g4], vals, c4, vals[2]);
    assert c4.values["size"] == c3.values["size"];
  }

  // ---------------------------------------------------------------------
  // Data references

  lemma DataReferenceNames(plus: nat)
    ensures VisibleNames(DataReferenceWith(plus).fields) == ["tag", "v", "flags", "data"]
    ensures Declared(DataReferenceWith(plus).fields, "size") == Some(Derived("size", [I], LenPlus("data", plus)))
    ensures Distinct(VisibleNames(DataReferenceWith(plus).fields))
  {
    DataReferenceVisible(plus);
    DataReferenceDeclared(plus);
    assert |"tag"| == 3 && |"v"| == 1 && |"flags"| == 5 && |"data"| == 4;
  }

  lemma DataReferenceVisible(plus: nat)
    ensures VisibleNames(DataReferenceWith(plus).fields) == ["tag", "v", "flags", "data"]
  {
    var fs := DataReferenceWith(plus).fields;
    assert fs[1..][1..] == fs[2..] && fs[2..][1..] == fs[3..] && fs[3..][1..] == fs[4..] && fs[4..][1..] == [];
    assert VisibleNames(fs[4..]) == ["data"];
    assert VisibleNames(fs[3..]) == ["flags", "data"];
    assert VisibleNames(fs[2..]) == ["v", "flags", "data"];
    assert VisibleNames(fs[1..]) == ["tag", "v", "flags", "data"];
  }

  lemma DataReferenceDeclared(plus: nat)
    ensures Declared(DataReferenceWith(plus).fields, "size") == Some(Derived("size", [I], LenPlus("data", plus)))
  {
    var fs := DataReferenceWith(plus).fields;
    assert Declared(fs, "size") == Declared(fs[..4], "size");
    assert fs[..4][..3] == fs[..3] && fs[..3][..2] == fs[..2] && fs[..2][..1] == fs[..1];
    assert Declared(fs[..4], "size") == Declared(fs[..3], "size");
    assert Declared(fs[..3], "size") == Declared(fs[..2], "size");
    assert Declared(fs[..2], "size") == Declared(fs[..1], "size");
  }

  /** A data reference's values survive encoding and decoding exactly when
      the size getter adds the 12 header bytes the decoder subtracts, the
      tag is four bytes, version and flags are in byte range and the size
      fits in a u32. With the getter as declared, adding 8, no data
      reference round-trips. */
  lemma DataReferenceTrips(plus: nat, vals: seq<Value>, atom: Option<nat>)
    ensures RecordTrips(DataReferenceWith(plus), vals, atom) <==>
              && plus == 12 && |vals| == 4
              && vals[0].Blob? && |vals[0].bytes| == 4
              && CodesTrip([B], vals[1]) && CodesTrip([B, B, B], vals[2])
              && vals[3].Blob? && |vals[3].bytes| + 12 < U32_LIMIT
  {
    DataReferenceNames(plus);
    if |vals| == 4 {
      DataReferenceFields(plus, vals, NewCtx(atom));
    }
  }

  lemma DataReferenceFields(plus: nat, vals: seq<Value>, c0: Ctx)
    requires |vals| == 4
    ensures FieldsTrip(DataReferenceWith(plus), DataReferenceWith(plus).fields, vals, c0) <==>
              && plus == 12
              && vals[0].Blob? && |vals[0].bytes| == 4
              && CodesTrip([B], vals[1]) && CodesTrip([B, B, B], vals[2])
              && vals[3].Blob? && |vals[3].bytes| + 12 < U32_LIMIT
  {
    if Len(vals[3]).Ok? {
      DataReferenceSizedU32(plus, vals, c0, Len(vals[3]).value);
    } else {
      DataReferenceNoSize(plus, vals, c0);
    }
  }

  /** The hidden size attribute is the data length plus the getter's offset. */
  lemma DataReferenceSize(plus: nat, vals: seq<Value>, n: int)
    requires |vals| == 4 && Len(vals[3]) == Ok(n)
    ensures GetAttr(DataReferenceWith(plus), vals, "size") == Ok(Num(n + plus))
  {
    DataReferenceNames(plus);
    GetAttrLenPlus(DataReferenceWith(plus), vals, "size", 3, plus, [I], n);
  }

  lemma DataReferenceNoSize(plus: nat, vals: seq<Value>, c0: Ctx)
    requires |vals| == 4 && Len(vals[3]).Err?
    ensures !FieldsTrip(DataReferenceWith(plus), DataReferenceWith(plus).fields, vals, c0)
  {
    DataReferenceNames(plus);
    GetAttrLenPlusErr(DataReferenceWith(plus), vals, "size", 3, plus, [I]);
    assert DataReferenceWith(plus).fields[0].name == "size";
  }

  lemma DataReferenceSizedU32(plus: nat, vals: seq<Value>, c0: Ctx, n: int)
    requires |vals| == 4 && Len(vals[3]) == Ok(n)
    ensures FieldsTrip(DataReferenceWith(plus), DataReferenceWith(plus).fields, vals, c0) <==>
              && plus == 12
              && vals[0].Blob? && |vals[0].bytes| == 4
              && CodesTrip([B], vals[1]) && CodesTrip([B, B, B], vals[2])
              && vals[3].Blob? && n + 12 < U32_LIMIT
  {
    DataReferenceSize(plus, vals, n);
    DataReferenceSized(plus, vals, c0, n);
    CodesTripU32(n + plus);
  }

  lemma DataReferenceSized(plus: nat, vals: seq<Value>, c0: Ctx, n: int)
    requires |vals| == 4 && Len(vals[3]) == Ok(n)
    requires GetAttr(DataReferenceWith(plus), vals, "size") == Ok(Num(n + plus))
    ensures FieldsTrip(DataReferenceWith(plus), DataReferenceWith(plus).fields, vals, c0) <==>
              CodesTrip([I], Num(n + plus)) &&
              (vals[0].Blob? && |vals[0].bytes| == 4 && CodesTrip([B], vals[1]) && CodesTrip([B, B, B], vals[2]) &&
               vals[3].Blob? && n + plus - 12 == n)
  {
    var l := DataReferenceWith(plus);
    var c1 := Record(c0, l.fields[0], Num(n + plus));
    assert "size" in c1.values && c1.values["size"] == Num(n + plus);
    TripNamed(l, l.fields, vals, c0, Num(n + plus));
    DataReferenceBody(plus, vals, c1, n);
  }

  lemma DataReferenceBody(plus: nat, vals: seq<Value>, c1: Ctx, n: int)
    requires |vals| == 4 && Len(vals[3]) == Ok(n)
    requires "size" in c1.values && c1.values["size"] == Num(n + plus)
    ensures FieldsTrip(DataReferenceWith(plus), DataReferenceWith(plus).fields[1..], vals, c1) <==>
              vals[0].Blob? && |vals[0].bytes| == 4 && CodesTrip([B], vals[1]) && CodesTrip([B, B, B], vals[2]) &&
              vals[3].Blob? && n + plus - 12 == n
  {
    var l := DataReferenceWith(plus);
    var fs := l.fields;
    DataReferenceNames(plus);
    GetAttrAt(l, vals, 0);
    assert fs[1..][1..] == fs[2..];
    TripNamed(l, fs[1..], vals, c1, vals[0]);
    DataReferenceTail(plus, vals, Record(c1, fs[1], vals[0]), n);
  }

  lemma DataReferenceTail(plus: nat, vals: seq<Value>, c2: Ctx, n: int)
    requires |vals| == 4 && Len(vals[3]) == Ok(n)
    requires "size" in c2.values && c2.values["size"] == Num(n + plus)
    ensures FieldsTrip(DataReferenceWith(plus), DataReferenceWith(plus).fields[2..], vals, c2) <==>
              CodesTrip([B], vals[1]) && CodesTrip([B, B, B], vals[2]) && vals[3].Blob? && n + plus - 12 == n
  {
    var l := DataReferenceWith(plus);
    var fs := l.fields;
    DataReferenceNames(plus);
    GetAttrAt(l, vals, 1);
    GetAttrAt(l, vals, 2);
    var c3 := Record(c2, fs[2], vals[1]);
    assert fs[2..][1..] == fs[3..] && fs[3..][1..] == fs[4..];
    TripNamed(l, fs[2..], vals, c2, vals[1]);
    TripNamed(l, fs[3..], vals, c3, vals[2]);
    DataReferenceData(plus, vals, Record(c3, fs[3], vals[2]), n);
  }

  lemma DataReferenceData(plus: nat, vals: seq<Value>, c4: Ctx, n: int)
    requires |vals| == 4 && Len(vals[3]) == Ok(n)
    requires "size" in c4.values && c4.values["size"] == Num(n + plus)
    ensures FieldsTrip(DataReferenceWith(plus), DataReferenceWith(plus).fields[4..], vals, c4) <==>
              vals[3].Blob? && n + plus - 12 == n
  {
    var l := DataReferenceWith(plus);
    var fs := l.fields;
    DataReferenceNames(plus);
    GetAttrAt(l, vals, 3);
    assert fs[4..][1..] == [];
    TripNamed(l, fs[4..], vals, c4, vals[3]);
    assert EvalLength(LengthOf("size", 12), c4) == Ok(n + plus - 12);
  }

  /** An `alis` reference to the movie file itself: flags 1 and no data. */
  const SelfReference: seq<Value> := [Blob([0x61, 0x6c, 0x69, 0x73]), Num(0), Nums([0, 0, 1]), Blob([])]

  /** A data reference that declares a size below its 12 header bytes
      fails to decode: its data would have a negative length. */
  lemma DataReferenceShortSize(plus: nat, s: Stream, atom: Option<nat>)
    requires s.pos <= |s.data| && s.Available() >= 12 && ReadU32(s.data[s.pos..s.pos + 4]) < 12
    ensures DecodeRecord(DataReferenceWith(plus), s, atom) == Err(UnpackError)
  {
    var fs := DataReferenceWith(plus).fields;
    var c0 := NewCtx(atom);
    var size := ReadU32(s.data[s.pos..s.pos + 4]);
    var s1 := Stream(s.data, s.pos + 4);
    assert s.data[s.pos..s.pos + 4][..4] == s.data[s.pos..s.pos + 4];
    assert DecodeField(fs[0], s, c0) == Ok((Num(size), s1));
    DecodeFieldsCons(fs, s, c0, Num(size), s1);
    var c1 := Record(c0, fs[0], Num(size));
    DataReferenceShortRest(plus, s1, c1, size);
  }

  lemma DataReferenceShortRest(plus: nat, s1: Stream, c1: Ctx, size: int)
    requires s1.pos <= |s1.data| && s1.Available() >= 8
    requires "size" in c1.values && c1.values["size"] == Num(size) && size < 12
    ensures DecodeFields(DataReferenceWith(plus).fields[1..], s1, c1) == Err(UnpackError)
  {
    var fs := DataReferenceWith(plus).fields;
    var r1 := DecodeField(fs[1], s1, c1);
    assert r1.Ok?;
    DecodeFieldsCons(fs[1..], s1, c1, r1.value.0, r1.value.1);
    assert fs[1..][1..] == fs[2..];
    var c2, s2 := Record(c1, fs[1], r1.value.0), r1.value.1;
    var r2 := DecodeField(fs[2], s2, c2);
    assert r2.Ok?;
    DecodeFieldsCons(fs[2..], s2, c2, r2.value.0, r2.value.1);
    assert fs[2..][1..] == fs[3..];
    var c3, s3 := Record(c2, fs[2], r2.value.0), r2.value.1;
    var r3 := DecodeField(fs[3], s3, c3);
    assert r3.Ok?;
    DecodeFieldsCons(fs[3..], s3, c3, r3.value.0, r3.value.1);
    var c4 := Record(c3, fs[3], r3.value.0);
    assert c4.values["size"] == Num(size);
    assert DecodeField(fs[4], r3.value.1, c4) == Err(UnpackError);
  }

  /** Values of the shape a data reference holds: a four-byte tag,
      version and flags in byte range, and data bytes. */
  predicate DataReferenceShape(vals: seq<Value>)
  {
    && |vals| == 4 && vals[0].Blob? && |vals[0].bytes| == 4
    && CodesTrip([B], vals[1]) && CodesTrip([B, B, B], vals[2]) && vals[3].Blob?
  }

  /** The byte a data reference's version encodes to. */
  function VersionByte(vals: seq<Value>): (b: seq<Byte>)
    requires DataReferenceShape(vals)
    ensures EncodeElem(Codes([B]), vals[1]) == Ok(b) && |b| == 1
  {
    CodesRoundTrip([B], vals[1], [], 0);
    EncodeElem(Codes([B]), vals[1]).value
  }

  /** The three bytes a data reference's flags encode to. */
  function FlagBytes(vals: seq<Value>): (b: seq<Byte>)
    requires DataReferenceShape(vals)
    ensures EncodeElem(Codes([B, B, B]), vals[2]) == Ok(b) && |b| == 3
  {
    CodesRoundTrip([B, B, B], vals[2], [], 0);
    EncodeElem(Codes([B, B, B]), vals[2]).value
  }

  /** The eight bytes after a data reference's size: its tag, version and flags. */
  function DataReferenceHead(vals: seq<Value>): (h: seq<Byte>)
    requires DataReferenceShape(vals)
    ensures |h| == 8
  {
    vals[0].bytes + VersionByte(vals) + FlagBytes(vals)
  }

  /** A data reference encodes to the size its getter derives, its tag,
      version and flags, and its data. */
  lemma DataReferenceEncoding(plus: nat, vals: seq<Value>)
    requires DataReferenceShape(vals) && |vals[3].bytes| + plus < U32_LIMIT
    ensures EncodeRecord(DataReferenceWith(plus), vals) ==
              Ok(WriteCode(I, |vals[3].bytes| + plus) + DataReferenceHead(vals) + vals[3].bytes)
  {
    var l := DataReferenceWith(plus);
    var n := |vals[3].bytes|;
    var w, h := WriteCode(I, n + plus), DataReferenceHead(vals);
    DataReferenceEncodesSize(plus, vals, n);
    DataReferenceEncodesRest(plus, vals);
    EncodeFieldsCons(l, l.fields, vals);
    assert EncodeRecord(l, vals) == Ok(w + (h + vals[3].bytes));
    assert w + (h + vals[3].bytes) == w + h + vals[3].bytes;
  }

  /** So the encoding is 12 bytes longer than the data, and its first four
      bytes read back as the derived size. */
  lemma DataReferenceEncodes(plus: nat, vals: seq<Value>)
    requires DataReferenceShape(vals) && |vals[3].bytes| + plus < U32_LIMIT
    ensures EncodeRecord(DataReferenceWith(plus), vals).Ok?
    ensures var e := EncodeRecord(DataReferenceWith(plus), vals).value;
            |e| == 12 + |vals[3].bytes| && ReadU32(e[..4]) == |vals[3].bytes| + plus
  {
    var n := |vals[3].bytes|;
    DataReferenceEncoding(plus, vals);
    var e := EncodeRecord(DataReferenceWith(plus), vals).value;
    var w := WriteCode(I, n + plus);
    assert e[..4] == w;
    ReadWriteCode(I, n + plus);
    assert ReadCode(I, w) == ReadU32(w);
  }

  lemma DataReferenceEncodesSize(plus: nat, vals: seq<Value>, n: nat)
    requires |vals| == 4 && vals[3].Blob? && n == |vals[3].bytes| && n + plus < U32_LIMIT
    ensures Given(DataReferenceWith(plus), DataReferenceWith(plus).fields[0], vals) == Ok(Some(Num(n + plus)))
    ensures EncodeField(DataReferenceWith(plus).fields[0], Some(Num(n + plus))) == Ok(WriteCode(I, n + plus))
  {
    DataReferenceSize(plus, vals, n);
    assert Fits(I, n + plus) && [I][1..] == [] && [n + plus][1..] == [];
    assert PackCodes([I], [n + plus]) == Ok(WriteCode(I, n + plus) + []);
    assert WriteCode(I, n + plus) + [] == WriteCode(I, n + plus);
    var f0 := DataReferenceWith(plus).fields[0];
    assert f0 == Plain("size", true, Some(LenPlus("data", plus)), [I]);
    assert ToItems(Some(Num(n + plus))) == Ok([n + plus]);
  }

  /** The five fields of a data reference. */
  lemma DataReferenceFieldList(plus: nat)
    ensures DataReferenceWith(plus).fields ==
              [Derived("size", [I], LenPlus("data", plus)), Str("tag", Literal(4)), Val("v", [B]),
               Val("flags", [B, B, B]), Str("data", LengthOf("size", 12))]
  {
  }

  /** Encoding passes each visible field its value. */
  lemma DataReferenceGiven(plus: nat, vals: seq<Value>, k: nat)
    requires |vals| == 4 && k < 4
    ensures Given(DataReferenceWith(plus), DataReferenceWith(plus).fields[k + 1], vals) == Ok(Some(vals[k]))
  {
    var l := DataReferenceWith(plus);
    DataReferenceNames(plus);
    DataReferenceFieldList(plus);
    GetAttrAt(l, vals, k);
    assert l.fields[k + 1].name == VisibleNames(l.fields)[k];
  }

  lemma DataReferenceEncodesRest(plus: nat, vals: seq<Value>)
    requires DataReferenceShape(vals)
    ensures EncodeFields(DataReferenceWith(plus), DataReferenceWith(plus).fields[1..], vals) ==
              Ok(DataReferenceHead(vals) + vals[3].bytes)
  {
    var l := DataReferenceWith(plus);
    var fs := l.fields;
    var t, vb, fb, d := vals[0].bytes, VersionByte(vals), FlagBytes(vals), vals[3].bytes;
    DataReferenceTagField(plus);
    DataReferenceGiven(plus, vals, 0);
    DataReferenceEncodesFlags(plus, vals);
    assert fs[1..][0] == fs[1] && fs[1..][1..] == fs[2..];
    EncodeFieldsStep(l, fs[1..], vals, t, vb + fb + d);
    assert t + (vb + fb + d) == DataReferenceHead(vals) + d;
  }

  lemma DataReferenceTagField(plus: nat)
    ensures |DataReferenceWith(plus).fields| == 5 && DataReferenceWith(plus).fields[1] == Str("tag", Literal(4))
  {
    DataReferenceFieldList(plus);
  }

  /** A record's fields encode to the first field's bytes, then the rest's. */
  lemma EncodeFieldsStep(l: Layout, fs: seq<Field>, vals: seq<Value>, b: seq<Byte>, rest: seq<Byte>)
    requires fs != [] && Given(l, fs[0], vals).Ok? && EncodeField(fs[0], Given(l, fs[0], vals).value) == Ok(b)
    requires EncodeFields(l, fs[1..], vals) == Ok(rest)
    ensures EncodeFields(l, fs, vals) == Ok(b + rest)
  {
  }

  lemma DataReferenceEncodesFlags(plus: nat, vals: seq<Value>)
    requires DataReferenceShape(vals)
    ensures EncodeFields(DataReferenceWith(plus), DataReferenceWith(plus).fields[2..], vals) ==
              Ok(VersionByte(vals) + FlagBytes(vals) + vals[3].bytes)
  {
    var l := DataReferenceWith(plus);
    var fs := l.fields;
    DataReferenceFieldList(plus);
    DataReferenceGiven(plus, vals, 1);
    assert fs[2..][1..] == fs[3..];
    var vb := VersionByte(vals);
    assert EncodeField(fs[2], Some(vals[1])) == Ok(vb);
    DataReferenceEncodesTail(plus, vals);
    EncodeFieldsCons(l, fs[2..], vals);
    assert vb + (FlagBytes(vals) + vals[3].bytes) == vb + FlagBytes(vals) + vals[3].bytes;
  }

  lemma DataReferenceEncodesTail(plus: nat, vals: seq<Value>)
    requires DataReferenceShape(vals)
    ensures EncodeFields(DataReferenceWith(plus), DataReferenceWith(plus).fields[3..], vals) ==
              Ok(FlagBytes(vals) + vals[3].bytes)
  {
    var l := DataReferenceWith(plus);
    var fs := l.fields;
    DataReferenceFieldList(plus);
    DataReferenceGiven(plus, vals, 2);
    DataReferenceGiven(plus, vals, 3);
    var fb := FlagBytes(vals);
    assert fs[3..][1..] == fs[4..] && fs[4..][1..] == [];
    assert EncodeField(fs[3], Some(vals[2])) == Ok(fb);
    assert EncodeField(fs[4], Some(vals[3])) == Ok(vals[3].bytes);
    EncodeFieldsCons(l, fs[4..], vals);
    EncodeFieldsCons(l, fs[3..], vals);
    assert vals[3].bytes + [] == vals[3].bytes;
  }

  /** With the getter as declared, a data reference with fewer than four
      data bytes, such as the self reference, encodes with a size below
      12, which its decoding then rejects. */
  lemma DataReferenceAsDeclaredFails(vals: seq<Value>)
    requires DataReferenceShape(vals) && |vals[3].bytes| < 4
    ensures EncodeRecord(DataReferenceAsDeclared, vals).Ok?
    ensures DecodeRecord(DataReferenceAsDeclared, Stream(EncodeRecord(DataReferenceAsDeclared, vals).value, 0), None) == Err(UnpackError)
  {
    DataReferenceEncodes(8, vals);
    var e := EncodeRecord(DataReferenceAsDeclared, vals).value;
    assert e[0..4] == e[..4];
    DataReferenceShortSize(8, Stream(e, 0), None);
  }

  /** A data reference reads its size, its tag, version and flags, and
      then as many data bytes as the size less 12, whatever its getter
      adds. */
  lemma DataReferenceReads(plus: nat, vals: seq<Value>, size: nat, x: seq<Byte>, d: seq<Byte>, pos: nat)
    requires DataReferenceShape(vals) && 12 <= size < U32_LIMIT && |x| == size - 12
    requires At(d, pos, WriteCode(I, size) + DataReferenceHead(vals) + x)
    ensures DecodeRecord(DataReferenceWith(plus), Stream(d, pos), None) ==
              Ok((Rec("data_reference", [vals[0], vals[1], vals[2], Blob(x)]), Stream(d, pos + size)))
  {
    var l := DataReferenceWith(plus);
    var got := [vals[0], vals[1], vals[2], Blob(x)];
    ReadsFields(plus, vals, size, x, d, pos);
    var (c, s) := DecodeFields(l.fields, Stream(d, pos), NewCtx(None)).value;
    DataReferenceConstruct(plus, c.init, vals[0], vals[1], vals[2], Blob(x));
    DecodeRecordOf(l, Stream(d, pos), None, c, s, got);
  }

  lemma ReadsFields(plus: nat, vals: seq<Value>, size: nat, x: seq<Byte>, d: seq<Byte>, pos: nat)
    requires DataReferenceShape(vals) && 12 <= size < U32_LIMIT && |x| == size - 12
    requires At(d, pos, WriteCode(I, size) + DataReferenceHead(vals) + x)
    ensures DecodeFields(DataReferenceWith(plus).fields, Stream(d, pos), NewCtx(None)).Ok?
    ensures var (c, s) := DecodeFields(DataReferenceWith(plus).fields, Stream(d, pos), NewCtx(None)).value;
            s == Stream(d, pos + size) && c.init == map[]["tag" := vals[0]]["v" := vals[1]]["flags" := vals[2]]["data" := Blob(x)]
  {
    var fs := DataReferenceWith(plus).fields;
    var c0 := NewCtx(None);
    var c1 := Record(c0, fs[0], Num(size));
    var w, h := WriteCode(I, size), DataReferenceHead(vals);
    AtSplit(d, pos, w, h + x);
    assert w + h + x == w + (h + x);
    ReadsSize(plus, size, d, pos, c0);
    DecodeFieldsCons(fs, Stream(d, pos), c0, Num(size), Stream(d, pos + 4));
    assert "size" in c1.values && c1.values["size"] == Num(size) && c1.init == map[] by {
      DataReferenceFieldList(plus);
    }
    ReadsHead(plus, vals, size, x, d, pos + 4, c1);
  }

  /** Constructing a data reference from the names decoding binds. */
  lemma DataReferenceConstruct(plus: nat, m: map<string, Value>, a: Value, b: Value, c: Value, e: Value)
    requires m == map[]["tag" := a]["v" := b]["flags" := c]["data" := e]
    ensures Construct(DataReferenceWith(plus), [], m) == Ok([a, b, c, e])
  {
    DataReferenceNames(plus);
    InitOfFour(m, a, b, c, e);
    ConstructAll(DataReferenceWith(plus), m, [a, b, c, e]);
  }

  /** The context after the four visible fields binds each of their names. */
  lemma InitOfFour(m: map<string, Value>, a: Value, b: Value, c: Value, e: Value)
    requires m == map[]["tag" := a]["v" := b]["flags" := c]["data" := e]
    ensures "tag" in m && "v" in m && "flags" in m && "data" in m
    ensures m["tag"] == a && m["v"] == b && m["flags"] == c && m["data"] == e
  {
    assert |"tag"| == 3 && |"v"| == 1 && |"flags"| == 5 && |"data"| == 4;
  }

  /** A record decodes to what its fields and its construction give. */
  lemma DecodeRecordOf(l: Layout, s: Stream, atom: Option<nat>, c: Ctx, s1: Stream, vals: seq<Value>)
    requires DecodeFields(l.fields, s, NewCtx(atom)) == Ok((c, s1)) && Construct(l, [], c.init) == Ok(vals)
    ensures DecodeRecord(l, s, atom) == Ok((Rec(l.name, vals), s1))
  {
  }

  lemma ReadsSize(plus: nat, size: nat, d: seq<Byte>, pos: nat, c: Ctx)
    requires size < U32_LIMIT && At(d, pos, WriteCode(I, size))
    ensures DecodeField(DataReferenceWith(plus).fields[0], Stream(d, pos), c) == Ok((Num(size), Stream(d, pos + 4)))
  {
    CodesTripU32(size);
    CodesRoundTrip([I], Num(size), d, pos);
    assert [I][1..] == [] && [size][1..] == [];
    assert PackCodes([I], [size]) == Ok(WriteCode(I, size) + []);
    assert WriteCode(I, size) + [] == WriteCode(I, size);
    assert ToItems(Some(Num(size))) == Ok([size]);
    DataReferenceFieldList(plus);
  }

  /** After the size: the tag, version, flags and data, each recorded in
      the context that holds the size. */
  lemma ReadsHead(plus: nat, vals: seq<Value>, size: nat, x: seq<Byte>, d: seq<Byte>, p: nat, c1: Ctx)
    requires DataReferenceShape(vals) && 12 <= size && |x| == size - 12
    requires "size" in c1.values && c1.values["size"] == Num(size)
    requires At(d, p, DataReferenceHead(vals) + x)
    ensures DecodeFields(DataReferenceWith(plus).fields[1..], Stream(d, p), c1).Ok?
    ensures var (c, s) := DecodeFields(DataReferenceWith(plus).fields[1..], Stream(d, p), c1).value;
            s == Stream(d, p + 8 + |x|) &&
            c.init == c1.init["tag" := vals[0]]["v" := vals[1]]["flags" := vals[2]]["data" := Blob(x)]
  {
    var fs := DataReferenceWith(plus).fields;
    var t, vb, fb := vals[0].bytes, VersionByte(vals), FlagBytes(vals);
    assert DataReferenceHead(vals) + x == t + (vb + fb + x);
    AtSplit(d, p, t, vb + fb + x);
    DataReferenceFieldList(plus);
    assert DecodeField(fs[1], Stream(d, p), c1) == Ok((vals[0], Stream(d, p + 4)));
    DecodeFieldsCons(fs[1..], Stream(d, p), c1, vals[0], Stream(d, p + 4));
    assert fs[1..][1..] == fs[2..];
    var c2 := Record(c1, fs[1], vals[0]);
    assert "size" in c2.values && c2.values["size"] == Num(size);
    assert c2.init == c1.init["tag" := vals[0]];
    ReadsVersion(plus, vals, size, x, d, p + 4, c2);
  }

  lemma ReadsVersion(plus: nat, vals: seq<Value>, size: nat, x: seq<Byte>, d: seq<Byte>, p: nat, c2: Ctx)
    requires DataReferenceShape(vals) && 12 <= size && |x| == size - 12
    requires "size" in c2.values && c2.values["size"] == Num(size)
    requires At(d, p, VersionByte(vals) + FlagBytes(vals) + x)
    ensures DecodeFields(DataReferenceWith(plus).fields[2..], Stream(d, p), c2).Ok?
    ensures var (c, s) := DecodeFields(DataReferenceWith(plus).fields[2..], Stream(d, p), c2).value;
            s == Stream(d, p + 4 + |x|) &&
            c.init == c2.init["v" := vals[1]]["flags" := vals[2]]["data" := Blob(x)]
  {
    var fs := DataReferenceWith(plus).fields;
    var vb, fb := VersionByte(vals), FlagBytes(vals);
    assert vb + fb + x == vb + (fb + x);
    AtSplit(d, p, vb, fb + x);
    CodesRoundTrip([B], vals[1], d, p);
    DataReferenceFieldList(plus);
    assert DecodeField(fs[2], Stream(d, p), c2) == Ok((vals[1], Stream(d, p + 1)));
    DecodeFieldsCons(fs[2..], Stream(d, p), c2, vals[1], Stream(d, p + 1));
    assert fs[2..][1..] == fs[3..];
    var c3 := Record(c2, fs[2], vals[1]);
    assert "size" in c3.values && c3.values["size"] == Num(size);
    assert c3.init == c2.init["v" := vals[1]];
    ReadsFlags(plus, vals, size, x, d, p + 1, c3);
  }

  lemma ReadsFlags(plus: nat, vals: seq<Value>, size: nat, x: seq<Byte>, d: seq<Byte>, p: nat, c3: Ctx)
    requires DataReferenceShape(vals) && 12 <= size && |x| == size - 12
    requires "size" in c3.values && c3.values["size"] == Num(size)
    requires At(d, p, FlagBytes(vals) + x)
    ensures DecodeFields(DataReferenceWith(plus).fields[3..], Stream(d, p), c3).Ok?
    ensures var (c, s) := DecodeFields(DataReferenceWith(plus).fields[3..], Stream(d, p), c3).value;
            s == Stream(d, p + 3 + |x|) && c.init == c3.init["flags" := vals[2]]["data" := Blob(x)]
  {
    var fs := DataReferenceWith(plus).fields;
    var fb := FlagBytes(vals);
    AtSplit(d, p, fb, x);
    CodesRoundTrip([B, B, B], vals[2], d, p);
    DataReferenceFieldList(plus);
    assert DecodeField(fs[3], Stream(d, p), c3) == Ok((vals[2], Stream(d, p + 3)));
    DecodeFieldsCons(fs[3..], Stream(d, p), c3, vals[2], Stream(d, p + 3));
    assert fs[3..][1..] == fs[4..];
    var c4 := Record(c3, fs[3], vals[2]);
    assert "size" in c4.values && c4.values["size"] == Num(size);
    ReadsData(plus, size, x, d, p + 3, c4);
  }

  lemma ReadsData(plus: nat, size: nat, x: seq<Byte>, d: seq<Byte>, p: nat, c4: Ctx)
    requires 12 <= size && |x| == size - 12
    requires "size" in c4.values && c4.values["size"] == Num(size)
    requires At(d, p, x)
    ensures DecodeFields(DataReferenceWith(plus).fields[4..], Stream(d, p), c4) ==
              Ok((Record(c4, Str("data", LengthOf("size", 12)), Blob(x)), Stream(d, p + |x|)))
  {
    var fs := DataReferenceWith(plus).fields;
    DataReferenceFieldList(plus);
    assert EvalLength(LengthOf("size", 12), c4) == Ok(size - 12);
    assert DecodeField(fs[4], Stream(d, p), c4) == Ok((Blob(x), Stream(d, p + |x|)));
    DecodeFieldsCons(fs[4..], Stream(d, p), c4, Blob(x), Stream(d, p + |x|));
    assert fs[4..][1..] == [];
  }

  /** A data reference whose getter adds `12 - k` encodes a size `k` short
      of what its decoding subtracts: decoding the encoding gives back the
      tag, version and flags but only the data less its last `k` bytes, and
      stops `k` bytes before the end of the encoding. With the getter
      corrected to add 12, `k` is 0 and the data reference comes back whole. */
  lemma DataReferenceShortGetter(plus: nat, vals: seq<Value>)
    requires plus <= 12 && DataReferenceShape(vals)
    requires |vals[3].bytes| >= 12 - plus && |vals[3].bytes| + plus < U32_LIMIT
    ensures EncodeRecord(DataReferenceWith(plus), vals).Ok?
    ensures |EncodeRecord(DataReferenceWith(plus), vals).value| == 12 + |vals[3].bytes|
    ensures var e := EncodeRecord(DataReferenceWith(plus), vals).value;
            var d := vals[3].bytes;
            DecodeRecord(DataReferenceWith(plus), Stream(e, 0), None) ==
              Ok((Rec("data_reference", [vals[0], vals[1], vals[2], Blob(d[..|d| - (12 - plus)])]), Stream(e, |e| - (12 - plus))))
  {
    DataReferenceEncodingPrefix(plus, vals, |vals[3].bytes| - (12 - plus));
    ShortGetterReads(plus, vals, EncodeRecord(DataReferenceWith(plus), vals).value);
  }

  /** The encoding starts with the size, the tag, version and flags, and any
      prefix of the data. */
  lemma DataReferenceEncodingPrefix(plus: nat, vals: seq<Value>, m: nat)
    requires DataReferenceShape(vals) && |vals[3].bytes| + plus < U32_LIMIT && m <= |vals[3].bytes|
    ensures EncodeRecord(DataReferenceWith(plus), vals).Ok?
    ensures |EncodeRecord(DataReferenceWith(plus), vals).value| == 12 + |vals[3].bytes|
    ensures At(EncodeRecord(DataReferenceWith(plus), vals).value, 0,
               WriteCode(I, |vals[3].bytes| + plus) + DataReferenceHead(vals) + vals[3].bytes[..m])
  {
    var d := vals[3].bytes;
    var w, h := WriteCode(I, |d| + plus), DataReferenceHead(vals);
    DataReferenceEncoding(plus, vals);
    assert EncodeRecord(DataReferenceWith(plus), vals).value == (w + h + d[..m]) + d[m..];
  }

  lemma ShortGetterReads(plus: nat, vals: seq<Value>, e: seq<Byte>)
    requires plus <= 12 && DataReferenceShape(vals)
    requires |vals[3].bytes| >= 12 - plus && |vals[3].bytes| + plus < U32_LIMIT && |e| == 12 + |vals[3].bytes|
    requires At(e, 0, WriteCode(I, |vals[3].bytes| + plus) + DataReferenceHead(vals) + vals[3].bytes[..|vals[3].bytes| - (12 - plus)])
    ensures var d := vals[3].bytes;
            DecodeRecord(DataReferenceWith(plus), Stream(e, 0), None) ==
              Ok((Rec("data_reference", [vals[0], vals[1], vals[2], Blob(d[..|d| - (12 - plus)])]), Stream(e, |e| - (12 - plus))))
  {
    var d := vals[3].bytes;
    DataReferenceReads(plus, vals, |d| + plus, d[..|d| - (12 - plus)], e, 0);
  }

  /** With the getter as declared, adding 8, a data reference with at least
      four data bytes decodes from its encoding with its last four data
      bytes missing, and the decoding stops four bytes before the end. */
  lemma DataReferenceAsDeclaredShortens(vals: seq<Value>)
    requires DataReferenceShape(vals) && |vals[3].bytes| >= 4 && |vals[3].bytes| + 8 < U32_LIMIT
    ensures EncodeRecord(DataReferenceAsDeclared, vals).Ok?
    ensures var e := EncodeRecord(DataReferenceAsDeclared, vals).value;
            var d := vals[3].bytes;
            DecodeRecord(DataReferenceAsDeclared, Stream(e, 0), None) ==
              Ok((Rec("data_reference", [vals[0], vals[1], vals[2], Blob(d[..|d| - 4])]), Stream(e, |e| - 4)))
  {
    DataReferenceShortGetter(8, vals);
  }

  /** With the getter corrected to add 12, a data reference decodes from its
      encoding back to itself, and the decoding reads the whole encoding. */
  lemma DataReferenceCorrectedTrips(plus: nat, vals: seq<Value>)
    requires plus == 12 && DataReferenceShape(vals) && |vals[3].bytes| + plus < U32_LIMIT
    ensures EncodeRecord(DataReferenceWith(plus), vals).Ok?
    ensures var e := EncodeRecord(DataReferenceWith(plus), vals).value;
            DecodeRecord(DataReferenceWith(plus), Stream(e, 0), None) == Ok((Rec("data_reference", vals), Stream(e, |e|)))
  {
    WholeData(vals, plus);
    DataReferenceShortGetter(plus, vals);
  }

  lemma WholeData(vals: seq<Value>, plus: nat)
    requires DataReferenceShape(vals) && plus == 12
    ensures [vals[0], vals[1], vals[2], Blob(vals[3].bytes[..|vals[3].bytes| - (12 - plus)])] == vals
  {
    assert vals[3].bytes[..|vals[3].bytes| - (12 - plus)] == vals[3].bytes;
  }

  /** The self reference is such a data reference. */
  lemma SelfReferenceShape()
    ensures DataReferenceShape(SelfReference) && |SelfReference[3].bytes| == 0
  {
  }
}
