/** The older decoders of `movfile.py`: namedtuple records read with plain
    `struct` calls, the sample tables stts, stss, stsz, stsc and stco with
    their `pack` counterparts, and the containers whose children are
    decoded by tag name. None of this is used by the repair. */
module LegacyAtoms {
  import opened Wrappers
  import opened Bytes
  import opened AtomReader
  import RC = RecordCodec

  // ---------------------------------------------------------------------
  // Plain `struct` calls

  /** `struct.unpack(fmt, b)`: `b` must hold exactly the format's size,
      otherwise `struct.error` is raised. */
  function Unpack(f: seq<RC.Code>, b: seq<Byte>): (r: Result<seq<int>>)
    ensures r.Ok? <==> |b| == RC.FormatSize(f)
    ensures r.Ok? ==> RC.AllFit(f, r.value) && |r.value| == RC.Arity(f)
  {
    if |b| != RC.FormatSize(f) then Err(StructError)
    else
      RC.UnpackCodesFit(f, b);
      Ok(RC.UnpackCodes(f, b))
  }

  /** `struct.pack(fmt, *vs)`: any value out of range or a wrong number of
      values raises `struct.error`. */
  function Pack(f: seq<RC.Code>, vs: seq<int>): (r: Result<seq<Byte>>)
  {
    match RC.PackCodes(f, vs)
    case Ok(b) => Ok(b)
    case Err(_) => Err(StructError)
  }

  /** Packing succeeds exactly for values that fit the format, and
      unpacking what it produced gives the values back. */
  lemma StructRoundTrip(f: seq<RC.Code>, vs: seq<int>)
    ensures Pack(f, vs).Ok? <==> RC.AllFit(f, vs)
    ensures Pack(f, vs).Ok? ==>
              |Pack(f, vs).value| == RC.FormatSize(f) && Unpack(f, Pack(f, vs).value) == Ok(vs)
  {
    RC.PackCodesRoundTrip(f, vs);
  }

  /** A format without pad bytes: every byte belongs to some value. */
  predicate NoPad(f: seq<RC.Code>)
  {
    forall i | 0 <= i < |f| :: f[i] != RC.X
  }

  lemma WriteReadCode(c: RC.Code, b: seq<Byte>)
    requires c != RC.X && |b| == RC.Width(c)
    ensures RC.Fits(c, RC.ReadCode(c, b)) && RC.WriteCode(c, RC.ReadCode(c, b)) == b
  {
    if c == RC.I {
      U32OfReadU32(b);
    }
  }

  /** Without pad bytes, packing what was unpacked restores the bytes. */
  lemma {:induction false} StructRepack(f: seq<RC.Code>, b: seq<Byte>)
    requires NoPad(f) && |b| == RC.FormatSize(f)
    ensures Pack(f, RC.UnpackCodes(f, b)) == Ok(b)
    decreases f
  {
    if f != [] {
      var w := RC.Width(f[0]);
      assert NoPad(f[1..]) by {
        forall i | 0 <= i < |f[1..]| ensures f[1..][i] != RC.X {
          assert f[1..][i] == f[i + 1];
        }
      }
      StructRepack(f[1..], b[w..]);
      WriteReadCode(f[0], b[..w]);
      var vs := RC.UnpackCodes(f, b);
      assert vs[1..] == RC.UnpackCodes(f[1..], b[w..]);
      assert b == b[..w] + b[w..];
    }
  }

  lemma SliceLength<T>(s: seq<T>, lo: nat, hi: nat)
    requires lo < hi
    ensures |Slice(s, lo, hi)| == hi - lo <==> hi <= |s|
  {
  }

  // ---------------------------------------------------------------------
  // Count-driven tables: stts, stss, stsc, stco (and the body of stsz)

  /** `>II`, `>III` and `>I`. */
  const Pair: seq<RC.Code> := [RC.I, RC.I]
  const Triple: seq<RC.Code> := [RC.I, RC.I, RC.I]
  const Single: seq<RC.Code> := [RC.I]

  lemma FormatSizes()
    ensures RC.FormatSize(Pair) == 8 && RC.FormatSize(Triple) == 12 && RC.FormatSize(Single) == 4
    ensures NoPad(Pair) && NoPad(Triple) && NoPad(Single)
  {
  }

  /** `i·w` by repeated addition, so that offsets can be followed one entry
      at a time. */
  function Times(i: nat, w: nat): (r: nat)
  {
    if i == 0 then 0 else Times(i - 1, w) + w
  }

  lemma {:induction false} TimesIsProduct(i: nat, w: nat)
    ensures Times(i, w) == i * w
  {
    if i > 0 {
      TimesIsProduct(i - 1, w);
      assert i * w == (i - 1) * w + w;
    }
  }

  /** The slices `data[at + i·w : at + i·w + w]` for `i` below `n`, one per
      entry of a count-driven table. A slice cut short by the end of the
      data makes `struct.unpack` raise; an entry that is read whole cannot
      fail, so cutting all slices first and unpacking them afterwards
      raises in the same cases. */
  function Cuts(data: seq<Byte>, at: nat, w: nat, n: nat): (r: Result<seq<seq<Byte>>>)
    requires w > 0
    ensures r.Ok? ==> |r.value| == n
    decreases n
  {
    if n == 0 then Ok([])
    else if at + w > |data| then Err(StructError)
    else
      match Cuts(data, at + w, w, n - 1)
      case Err(e) => Err(e)
      case Ok(rest) => Ok([data[at..at + w]] + rest)
  }

  predicate Widths(cs: seq<seq<Byte>>, w: nat)
  {
    forall k | 0 <= k < |cs| :: |cs[k]| == w
  }

  /** Slice `i` starts at `at + i·w`. */
  lemma {:induction false} CutsAt(data: seq<Byte>, at: nat, w: nat, n: nat, i: nat)
    requires w > 0 && Cuts(data, at, w, n).Ok? && i < n
    ensures at + Times(i, w) + w <= |data|
    ensures Cuts(data, at, w, n).value[i] == data[at + Times(i, w)..at + Times(i, w) + w]
    decreases i
  {
    if i > 0 {
      CutsAt(data, at + w, w, n - 1, i - 1);
    }
  }

  /** The slices can all be cut exactly when the data reaches past the last. */
  lemma {:induction false} CutsOutcome(data: seq<Byte>, at: nat, w: nat, n: nat)
    requires w > 0
    ensures Cuts(data, at, w, n).Ok? <==> n == 0 || at + Times(n, w) <= |data|
    decreases n
  {
    if n > 0 {
      CutsOutcome(data, at + w, w, n - 1);
      TimesShift(n - 1, w);
    }
  }

  lemma {:induction false} TimesShift(i: nat, w: nat)
    ensures Times(i + 1, w) == w + Times(i, w)
  {
  }

  /** The slices lie back to back: together they are the bytes from `at`. */
  lemma {:induction false} CutsConcat(data: seq<Byte>, at: nat, w: nat, n: nat)
    requires w > 0 && Cuts(data, at, w, n).Ok?
    ensures Widths(Cuts(data, at, w, n).value, w)
    ensures n == 0 || at + Times(n, w) <= |data|
    ensures |Concat(Cuts(data, at, w, n).value)| == Times(n, w)
    ensures n == 0 || Concat(Cuts(data, at, w, n).value) == data[at..at + Times(n, w)]
    decreases n
  {
    if n > 0 {
      var cs := Cuts(data, at, w, n).value;
      var rest := Cuts(data, at + w, w, n - 1).value;
      assert cs == [data[at..at + w]] + rest;
      CutsConcat(data, at + w, w, n - 1);
      TimesShift(n - 1, w);
      assert cs[1..] == rest;
      if n > 1 {
        assert data[at..at + Times(n, w)] == data[at..at + w] + data[at + w..at + w + Times(n - 1, w)];
      } else {
        assert Concat(rest) == [];
      }
    }
  }

  /** Slices of width `w` laid back to back at `at` are cut out again. */
  lemma {:induction false} CutsOfConcat(data: seq<Byte>, at: nat, w: nat, cs: seq<seq<Byte>>)
    requires w > 0 && Widths(cs, w)
    requires at + |Concat(cs)| <= |data| && data[at..at + |Concat(cs)|] == Concat(cs)
    ensures Cuts(data, at, w, |cs|) == Ok(cs)
    decreases |cs|
  {
    if cs != [] {
      var all := Concat(cs);
      assert all == cs[0] + Concat(cs[1..]);
      assert data[at..at + w] == all[..w];
      assert data[at + w..at + w + |Concat(cs[1..])|] == all[w..];
      CutsOfConcat(data, at + w, w, cs[1..]);
      assert [cs[0]] + cs[1..] == cs;
    }
  }

  /** Every slice unpacked with the entry format. */
  function UnpackEach(row: seq<RC.Code>, cs: seq<seq<Byte>>): (rows: seq<seq<int>>)
    requires Widths(cs, RC.FormatSize(row))
    ensures |rows| == |cs| && forall k | 0 <= k < |rows| :: |rows[k]| == RC.Arity(row)
  {
    seq(|cs|, k requires 0 <= k < |cs| => RC.UnpackCodes(row, cs[k]))
  }

  /** `n` entries of format `row` read back to back from offset `at`. */
  function Rows(data: seq<Byte>, at: nat, row: seq<RC.Code>, n: nat): (r: Result<seq<seq<int>>>)
    requires RC.FormatSize(row) > 0
    ensures r.Ok? ==> |r.value| == n
  {
    var cs :- Cuts(data, at, RC.FormatSize(row), n);
    CutsConcat(data, at, RC.FormatSize(row), n);
    Ok(UnpackEach(row, cs))
  }

  /** The entries, each packed on its own: what the `pack` methods append
      one after the other. The first entry that does not fit raises. */
  function PackPieces(row: seq<RC.Code>, rows: seq<seq<int>>): (r: Result<seq<seq<Byte>>>)
    ensures r.Ok? ==> |r.value| == |rows|
    decreases |rows|
  {
    if rows == [] then Ok([])
    else
      var b :- Pack(row, rows[0]);
      var rest :- PackPieces(row, rows[1..]);
      Ok([b] + rest)
  }

  /** Packing entries succeeds exactly when each fits the format, and then
      piece `k` is entry `k` packed. */
  lemma {:induction false} PackPiecesSpec(row: seq<RC.Code>, rows: seq<seq<int>>)
    ensures PackPieces(row, rows).Ok? <==> forall k | 0 <= k < |rows| :: RC.AllFit(row, rows[k])
    ensures PackPieces(row, rows).Ok? ==>
              forall k | 0 <= k < |rows| :: Pack(row, rows[k]) == Ok(PackPieces(row, rows).value[k])
    decreases |rows|
  {
    if rows != [] {
      StructRoundTrip(row, rows[0]);
      PackPiecesSpec(row, rows[1..]);
      assert forall k | 0 < k < |rows| :: rows[k] == rows[1..][k - 1];
    }
  }

  /** Pieces that are the entries packed one by one are what packing the
      entries gives. */
  lemma {:induction false} PackPiecesOf(row: seq<RC.Code>, rows: seq<seq<int>>, ps: seq<seq<Byte>>)
    requires |ps| == |rows| && forall k | 0 <= k < |rows| :: Pack(row, rows[k]) == Ok(ps[k])
    ensures PackPieces(row, rows) == Ok(ps)
    decreases |rows|
  {
    if rows != [] {
      assert forall k | 0 <= k < |rows| - 1 :: rows[1..][k] == rows[k + 1] && ps[1..][k] == ps[k + 1];
      PackPiecesOf(row, rows[1..], ps[1..]);
      assert [ps[0]] + ps[1..] == ps;
    }
  }

  /** Packed entries have the width of the format and unpack to themselves. */
  lemma PackedUnpack(row: seq<RC.Code>, rows: seq<seq<int>>)
    requires PackPieces(row, rows).Ok?
    ensures Widths(PackPieces(row, rows).value, RC.FormatSize(row))
    ensures UnpackEach(row, PackPieces(row, rows).value) == rows
  {
    var ps := PackPieces(row, rows).value;
    PackPiecesSpec(row, rows);
    forall k | 0 <= k < |rows|
      ensures |ps[k]| == RC.FormatSize(row) && RC.UnpackCodes(row, ps[k]) == rows[k]
    {
      StructRoundTrip(row, rows[k]);
    }
  }

  /** Entries unpacked from slices pack back to those slices. */
  lemma UnpackedPack(row: seq<RC.Code>, cs: seq<seq<Byte>>)
    requires NoPad(row) && Widths(cs, RC.FormatSize(row))
    ensures PackPieces(row, UnpackEach(row, cs)) == Ok(cs)
  {
    var rows := UnpackEach(row, cs);
    forall k | 0 <= k < |rows|
      ensures Pack(row, rows[k]) == Ok(cs[k])
    {
      StructRepack(row, cs[k]);
    }
    PackPiecesOf(row, rows, cs);
  }

  lemma PairValues(b: seq<Byte>)
    requires |b| == 8
    ensures RC.FormatSize(Pair) == 8
    ensures RC.UnpackCodes(Pair, b) == [ReadU32(b[..4]), ReadU32(b[4..8])]
  {
    assert b[4..][..4] == b[4..8];
  }

  lemma TripleValues(b: seq<Byte>)
    requires |b| == 12
    ensures RC.FormatSize(Triple) == 12
    ensures RC.UnpackCodes(Triple, b) == [ReadU32(b[..4]), ReadU32(b[4..8]), ReadU32(b[8..12])]
  {
    assert RC.UnpackCodes(Triple, b) == [ReadU32(b[..4])] + RC.UnpackCodes(Pair, b[4..]);
    PairValues(b[4..]);
    assert b[4..][..4] == b[4..8];
    assert b[4..][4..8] == b[8..12];
  }

  /** A `(vf, nitems)` header from the first eight bytes, then `nitems`
      entries of format `row` from offset 8. */
  function TableOf(row: seq<RC.Code>, data: seq<Byte>): (r: Result<(int, seq<seq<int>>)>)
    requires RC.FormatSize(row) > 0
    ensures r.Ok? ==> forall k | 0 <= k < |r.value.1| :: |r.value.1[k]| == RC.Arity(row)
  {
    var head :- Unpack(Pair, Slice(data, 0, 8));
    var rows :- Rows(data, 8, row, head[1]);
    Ok((head[0], rows))
  }

  /** `struct.pack('>II', vf, len(table))` followed by every entry. */
  function PackTable(row: seq<RC.Code>, vf: int, rows: seq<seq<int>>): Result<seq<Byte>>
  {
    var head :- Pack(Pair, [vf, |rows|]);
    var pieces :- PackPieces(row, rows);
    Ok(head + Concat(pieces))
  }

  /** The header of a table: version and flags, then the entry count. */
  lemma TableHeader(data: seq<Byte>)
    ensures Unpack(Pair, Slice(data, 0, 8)).Ok? <==> |data| >= 8
    ensures |data| >= 8 ==> Unpack(Pair, Slice(data, 0, 8)) == Ok([ReadU32(data[..4]), ReadU32(data[4..8])])
  {
    SliceLength(data, 0, 8);
    if |data| >= 8 {
      PairValues(data[..8]);
      assert data[..8][..4] == data[..4];
      assert data[..8][4..8] == data[4..8];
    }
  }

  /** A table decodes exactly when the data holds the header and all the
      entries its count announces; entry `i` is the `w` bytes from
      `8 + i·w`. */
  lemma TableOutcome(row: seq<RC.Code>, data: seq<Byte>)
    requires RC.FormatSize(row) > 0
    ensures TableOf(row, data).Ok? <==>
              |data| >= 8 && 8 + ReadU32(data[4..8]) * RC.FormatSize(row) <= |data|
    ensures TableOf(row, data).Ok? ==>
              TableOf(row, data).value.0 == ReadU32(data[..4]) && |TableOf(row, data).value.1| == ReadU32(data[4..8])
  {
    TableHeader(data);
    if |data| >= 8 {
      var n := ReadU32(data[4..8]);
      CutsOutcome(data, 8, RC.FormatSize(row), n);
      TimesIsProduct(n, RC.FormatSize(row));
    }
  }

  /** Count-driven offsets: entry `i` is unpacked from the `w` bytes at
      `8 + i·w`. */
  lemma TableEntry(row: seq<RC.Code>, data: seq<Byte>, i: nat)
    requires RC.FormatSize(row) > 0
    requires TableOf(row, data).Ok? && i < |TableOf(row, data).value.1|
    ensures 8 + i * RC.FormatSize(row) + RC.FormatSize(row) <= |data|
    ensures var o := 8 + i * RC.FormatSize(row);
            TableOf(row, data).value.1[i] == RC.UnpackCodes(row, data[o..o + RC.FormatSize(row)])
  {
    var w := RC.FormatSize(row);
    TableHeader(data);
    var n := ReadU32(data[4..8]);
    CutsAt(data, 8, w, n, i);
    TimesIsProduct(i, w);
  }

  /** Packing a table and unpacking the result gives the table back. */
  lemma TableRoundTrip(row: seq<RC.Code>, vf: int, rows: seq<seq<int>>)
    requires RC.FormatSize(row) > 0
    requires PackTable(row, vf, rows).Ok?
    ensures TableOf(row, PackTable(row, vf, rows).value) == Ok((vf, rows))
  {
    StructRoundTrip(Pair, [vf, |rows|]);
    var head := Pack(Pair, [vf, |rows|]).value;
    var pieces := PackPieces(row, rows).value;
    PackedUnpack(row, rows);
    var b := head + Concat(pieces);
    assert Slice(b, 0, 8) == head;
    assert b[8..8 + |Concat(pieces)|] == Concat(pieces);
    CutsOfConcat(b, 8, RC.FormatSize(row), pieces);
  }

  /** Unpacking then packing restores the bytes the table was read from;
      whatever follows the last entry is not part of the table. */
  lemma TableRepack(row: seq<RC.Code>, data: seq<Byte>)
    requires RC.FormatSize(row) > 0 && NoPad(row) && TableOf(row, data).Ok?
    ensures 8 + |TableOf(row, data).value.1| * RC.FormatSize(row) <= |data|
    ensures PackTable(row, TableOf(row, data).value.0, TableOf(row, data).value.1) ==
              Ok(data[..8 + |TableOf(row, data).value.1| * RC.FormatSize(row)])
  {
    var w := RC.FormatSize(row);
    TableHeader(data);
    var head := [ReadU32(data[..4]), ReadU32(data[4..8])];
    var n := head[1];
    FormatSizes();
    StructRepack(Pair, data[..8]);
    assert Pack(Pair, head) == Ok(data[..8]) by {
      PairValues(data[..8]);
      assert data[..8][..4] == data[..4];
      assert data[..8][4..8] == data[4..8];
    }
    var cs := Cuts(data, 8, w, n).value;
    CutsConcat(data, 8, w, n);
    UnpackedPack(row, cs);
    TimesIsProduct(n, w);
    assert data[..8 + n * w] == data[..8] + data[8..8 + n * w];
  }

  /** Packing fails exactly when a value does not fit: the version and the
      count must be u32 values, and every entry must have the format's
      number of fields, each in range. */
  lemma TablePackOutcome(row: seq<RC.Code>, vf: int, rows: seq<seq<int>>)
    ensures PackTable(row, vf, rows).Ok? <==>
              0 <= vf < U32_LIMIT && |rows| < U32_LIMIT && forall k | 0 <= k < |rows| :: RC.AllFit(row, rows[k])
  {
    StructRoundTrip(Pair, [vf, |rows|]);
    PackPiecesSpec(row, rows);
  }

  /** Every value of an entry as a u32, the entry having `k` fields. */
  predicate U32Row(r: seq<int>, k: nat)
  {
    |r| == k && forall j | 0 <= j < k :: 0 <= r[j] < U32_LIMIT
  }

  lemma AllFitRows(r: seq<int>)
    ensures RC.AllFit(Single, r) <==> U32Row(r, 1)
    ensures RC.AllFit(Pair, r) <==> U32Row(r, 2)
    ensures RC.AllFit(Triple, r) <==> U32Row(r, 3)
  {
    if |r| >= 1 {
      assert r[1..] == [] <==> |r| == 1;
      if |r| >= 2 {
        assert r[1..][0] == r[1];
        assert r[1..][1..] == r[2..];
        if |r| >= 3 {
          assert r[2..][0] == r[2];
          assert r[2..][1..] == r[3..];
        }
      }
    }
  }

  // ---------------------------------------------------------------------
  // The decoded records

  /** `dref.DataReference`: the entry's tag, its version and flags, and
      the whole entry including its 12-byte header. */
  datatype DataReference = DataReference(tag: seq<Byte>, vf: int, data: seq<Byte>)

  /** `stsd.SampleDescription`: the data format, the data reference index
      and the bytes read as the description's data. */
  datatype SampleDescription = SampleDescription(fmt: seq<Byte>, dri: int, data: seq<Byte>)

  /** The namedtuples of the module. A container keeps its fields by name,
      `None` for those no atom filled. */
  datatype Legacy =
    | Movie(fields: map<string, Option<Legacy>>, tracks: seq<Legacy>)   // moov
    | Record(kind: string, fields: map<string, Option<Legacy>>)        // trak, mdia, minf, stbl
    | DataInfo(drefs: seq<Legacy>)                                      // dinf
    | TrackHeader(head: seq<int>, matrix: seq<int>, dims: seq<int>)     // tkhd
    | MediaHeader(values: seq<int>)                                     // mdhd
    | Handler(values: seq<int>, name: seq<Byte>)                        // hdlr
    | References(vf: int, refs: seq<DataReference>)                     // dref
    | Descriptions(vf: int, descs: seq<SampleDescription>)              // stsd
    | Table(kind: string, vf: int, rows: seq<seq<int>>)                 // stts, stsc
    | Column(kind: string, vf: int, entries: seq<int>)                  // stss, stco
    | SampleSizes(vf: int, size: int, entries: seq<int>)                // stsz

  // ---------------------------------------------------------------------
  // stts, stsc, stss, stco

  function Firsts(rows: seq<seq<int>>): (xs: seq<int>)
    requires forall k | 0 <= k < |rows| :: |rows[k]| == 1
    ensures |xs| == |rows|
  {
    seq(|rows|, k requires 0 <= k < |rows| => rows[k][0])
  }

  function Singles(xs: seq<int>): (rows: seq<seq<int>>)
    ensures |rows| == |xs|
  {
    seq(|xs|, k requires 0 <= k < |xs| => [xs[k]])
  }

  /** `stts.unpack`: `(sample count, sample duration)` pairs. */
  function UnpackStts(data: seq<Byte>): Result<Legacy>
  {
    FormatSizes();
    var t :- TableOf(Pair, data);
    Ok(Table("stts", t.0, t.1))
  }

  /** `stts.pack`. */
  function PackStts(vf: int, table: seq<seq<int>>): Result<seq<Byte>>
  {
    PackTable(Pair, vf, table)
  }

  /** `stsc.unpack`: `(first chunk, samples per chunk, description id)`
      triples. */
  function UnpackStsc(data: seq<Byte>): Result<Legacy>
  {
    FormatSizes();
    var t :- TableOf(Triple, data);
    Ok(Table("stsc", t.0, t.1))
  }

  /** `stsc.pack`. */
  function PackStsc(vf: int, table: seq<seq<int>>): Result<seq<Byte>>
  {
    PackTable(Triple, vf, table)
  }

  /** `stss.unpack`: the sync sample numbers. There is no `pack`. */
  function UnpackStss(data: seq<Byte>): Result<Legacy>
  {
    FormatSizes();
    var t :- TableOf(Single, data);
    Ok(Column("stss", t.0, Firsts(t.1)))
  }

  /** `stco.unpack`: the chunk offsets. */
  function UnpackStco(data: seq<Byte>): Result<Legacy>
  {
    FormatSizes();
    var t :- TableOf(Single, data);
    Ok(Column("stco", t.0, Firsts(t.1)))
  }

  /** `stco.pack`. */
  function PackStco(vf: int, table: seq<int>): Result<seq<Byte>>
  {
    PackTable(Single, vf, Singles(table))
  }

  /** stts: packing succeeds exactly when the version, the count and every
      entry are u32 values (entries being pairs), and unpacking the packed
      bytes gives the table back. */
  lemma SttsRoundTrip(vf: int, table: seq<seq<int>>)
    ensures PackStts(vf, table).Ok? <==>
              0 <= vf < U32_LIMIT && |table| < U32_LIMIT && forall k | 0 <= k < |table| :: U32Row(table[k], 2)
    ensures PackStts(vf, table).Ok? ==> UnpackStts(PackStts(vf, table).value) == Ok(Table("stts", vf, table))
  {
    FormatSizes();
    TablePackOutcome(Pair, vf, table);
    forall k | 0 <= k < |table| {
      AllFitRows(table[k]);
    }
    if PackStts(vf, table).Ok? {
      TableRoundTrip(Pair, vf, table);
    }
  }

  /** stsc: the same with triples. */
  lemma StscRoundTrip(vf: int, table: seq<seq<int>>)
    ensures PackStsc(vf, table).Ok? <==>
              0 <= vf < U32_LIMIT && |table| < U32_LIMIT && forall k | 0 <= k < |table| :: U32Row(table[k], 3)
    ensures PackStsc(vf, table).Ok? ==> UnpackStsc(PackStsc(vf, table).value) == Ok(Table("stsc", vf, table))
  {
    FormatSizes();
    TablePackOutcome(Triple, vf, table);
    forall k | 0 <= k < |table| {
      AllFitRows(table[k]);
    }
    if PackStsc(vf, table).Ok? {
      TableRoundTrip(Triple, vf, table);
    }
  }

  lemma FirstsSingles(xs: seq<int>)
    ensures Firsts(Singles(xs)) == xs
  {
  }

  lemma SinglesFirsts(rows: seq<seq<int>>)
    requires forall k | 0 <= k < |rows| :: |rows[k]| == 1
    ensures Singles(Firsts(rows)) == rows
  {
    forall k | 0 <= k < |rows| ensures Singles(Firsts(rows))[k] == rows[k] {
      assert rows[k] == [rows[k][0]];
    }
  }

  /** stco: the same with single offsets. */
  lemma StcoRoundTrip(vf: int, table: seq<int>)
    ensures PackStco(vf, table).Ok? <==>
              0 <= vf < U32_LIMIT && |table| < U32_LIMIT && forall k | 0 <= k < |table| :: 0 <= table[k] < U32_LIMIT
    ensures PackStco(vf, table).Ok? ==> UnpackStco(PackStco(vf, table).value) == Ok(Column("stco", vf, table))
  {
    FormatSizes();
    var rows := Singles(table);
    TablePackOutcome(Single, vf, rows);
    forall k | 0 <= k < |table| {
      AllFitRows(rows[k]);
    }
    if PackStco(vf, table).Ok? {
      TableRoundTrip(Single, vf, rows);
      FirstsSingles(table);
    }
  }

  /** Decoding then packing stts restores the bytes up to the last entry. */
  lemma SttsRepack(data: seq<Byte>)
    requires UnpackStts(data).Ok?
    ensures 8 + 8 * |UnpackStts(data).value.rows| <= |data|
    ensures PackStts(UnpackStts(data).value.vf, UnpackStts(data).value.rows) ==
              Ok(data[..8 + 8 * |UnpackStts(data).value.rows|])
  {
    FormatSizes();
    TableRepack(Pair, data);
  }

  /** Decoding then packing stsc restores the bytes up to the last entry. */
  lemma StscRepack(data: seq<Byte>)
    requires UnpackStsc(data).Ok?
    ensures 8 + 12 * |UnpackStsc(data).value.rows| <= |data|
    ensures PackStsc(UnpackStsc(data).value.vf, UnpackStsc(data).value.rows) ==
              Ok(data[..8 + 12 * |UnpackStsc(data).value.rows|])
  {
    FormatSizes();
    TableRepack(Triple, data);
  }

  /** Decoding then packing stco restores the bytes up to the last entry. */
  lemma StcoRepack(data: seq<Byte>)
    requires UnpackStco(data).Ok?
    ensures 8 + 4 * |UnpackStco(data).value.entries| <= |data|
    ensures PackStco(UnpackStco(data).value.vf, UnpackStco(data).value.entries) ==
              Ok(data[..8 + 4 * |UnpackStco(data).value.entries|])
  {
    FormatSizes();
    var t := TableOf(Single, data).value;
    TableRepack(Single, data);
    SinglesFirsts(t.1);
  }

  /** The count-driven decoders: a table decodes exactly when the data
      holds its 8-byte header and the `nitems` entries the header
      announces, entries being 8 bytes for stts, 12 for stsc and 4 for
      stss and stco; the decoded version and count are the header's. */
  lemma CountDriven(data: seq<Byte>)
    ensures UnpackStts(data).Ok? <==> |data| >= 8 && 8 + ReadU32(data[4..8]) * 8 <= |data|
    ensures UnpackStsc(data).Ok? <==> |data| >= 8 && 8 + ReadU32(data[4..8]) * 12 <= |data|
    ensures UnpackStss(data).Ok? <==> |data| >= 8 && 8 + ReadU32(data[4..8]) * 4 <= |data|
    ensures UnpackStco(data).Ok? <==> |data| >= 8 && 8 + ReadU32(data[4..8]) * 4 <= |data|
    ensures UnpackStts(data).Ok? ==>
              UnpackStts(data).value.vf == ReadU32(data[..4]) && |UnpackStts(data).value.rows| == ReadU32(data[4..8])
    ensures UnpackStco(data).Ok? ==>
              UnpackStco(data).value.vf == ReadU32(data[..4]) && |UnpackStco(data).value.entries| == ReadU32(data[4..8])
  {
    FormatSizes();
    TableOutcome(Pair, data);
    TableOutcome(Triple, data);
    TableOutcome(Single, data);
  }

  /** stts entry `i` is the pair of u32 values at `8 + 8·i`. */
  lemma SttsEntry(data: seq<Byte>, i: nat)
    requires UnpackStts(data).Ok? && i < |UnpackStts(data).value.rows|
    ensures 8 + 8 * i + 8 <= |data|
    ensures UnpackStts(data).value.rows[i] == [ReadU32(data[8 + 8 * i..8 + 8 * i + 4]), ReadU32(data[8 + 8 * i + 4..8 + 8 * i + 8])]
  {
    FormatSizes();
    TableEntry(Pair, data, i);
    var e := data[8 + 8 * i..8 + 8 * i + 8];
    PairValues(e);
    assert e[..4] == data[8 + 8 * i..8 + 8 * i + 4];
    assert e[4..8] == data[8 + 8 * i + 4..8 + 8 * i + 8];
  }

  /** stco entry `i` is the u32 at `8 + 4·i`. */
  lemma StcoEntry(data: seq<Byte>, i: nat)
    requires UnpackStco(data).Ok? && i < |UnpackStco(data).value.entries|
    ensures 8 + 4 * i + 4 <= |data|
    ensures UnpackStco(data).value.entries[i] == ReadU32(data[8 + 4 * i..8 + 4 * i + 4])
  {
    FormatSizes();
    TableEntry(Single, data, i);
  }

  /** stss entry `i` is the u32 at `8 + 4·i`. */
  lemma StssEntry(data: seq<Byte>, i: nat)
    requires UnpackStss(data).Ok? && i < |UnpackStss(data).value.entries|
    ensures 8 + 4 * i + 4 <= |data|
    ensures UnpackStss(data).value.entries[i] == ReadU32(data[8 + 4 * i..8 + 4 * i + 4])
  {
    FormatSizes();
    TableEntry(Single, data, i);
  }

  // ---------------------------------------------------------------------
  // stsz

  /** `stsz.unpack`: `(vf, size, nitems)`, then the entries only when the
      common sample size is 0. */
  function UnpackStsz(data: seq<Byte>): Result<Legacy>
  {
    FormatSizes();
    var head :- Unpack(Triple, Slice(data, 0, 12));
    var rows :- if head[1] == 0 then Rows(data, 12, Single, head[2]) else Ok([]);
    Ok(SampleSizes(head[0], head[1], Firsts(rows)))
  }

  /** `stsz.pack`: the count written is always `len(table)`. */
  function PackStsz(vf: int, size: int, table: seq<int>): Result<seq<Byte>>
  {
    var head :- Pack(Triple, [vf, size, |table|]);
    var pieces :- PackPieces(Single, Singles(table));
    Ok(head + Concat(pieces))
  }

  /** stsz packing succeeds exactly when every value is a u32. */
  lemma StszPackOutcome(vf: int, size: int, table: seq<int>)
    ensures PackStsz(vf, size, table).Ok? <==>
              0 <= vf < U32_LIMIT && 0 <= size < U32_LIMIT && |table| < U32_LIMIT &&
              forall k | 0 <= k < |table| :: 0 <= table[k] < U32_LIMIT
  {
    var rows := Singles(table);
    var h := [vf, size, |table|];
    StructRoundTrip(Triple, h);
    AllFitRows(h);
    assert U32Row(h, 3) <==> 0 <= h[0] < U32_LIMIT && 0 <= h[1] < U32_LIMIT && 0 <= h[2] < U32_LIMIT;
    PackPiecesSpec(Single, rows);
    forall k | 0 <= k < |table|
      ensures RC.AllFit(Single, rows[k]) <==> 0 <= table[k] < U32_LIMIT
    {
      AllFitRows(rows[k]);
    }
  }

  /** The packed stsz bytes decode to the same record exactly when the
      common size is 0 or the table is empty: a non-zero size makes the
      decoder skip the entries that `pack` wrote. */
  lemma StszRoundTrip(vf: int, size: int, table: seq<int>)
    requires PackStsz(vf, size, table).Ok?
    ensures UnpackStsz(PackStsz(vf, size, table).value) == Ok(SampleSizes(vf, size, table)) <==> size == 0 || table == []
  {
    FormatSizes();
    var rows := Singles(table);
    var head := Pack(Triple, [vf, size, |table|]).value;
    var pieces := PackPieces(Single, rows).value;
    var b := head + Concat(pieces);
    StructRoundTrip(Triple, [vf, size, |table|]);
    assert Slice(b, 0, 12) == head;
    if size == 0 {
      PackedUnpack(Single, rows);
      assert b[12..12 + |Concat(pieces)|] == Concat(pieces);
      CutsOfConcat(b, 12, 4, pieces);
      FirstsSingles(table);
    }
  }

  // ---------------------------------------------------------------------
  // mdhd, hdlr, tkhd

  /** `n` consecutive items of one code, as in `>5I` or `8x`. */
  function Run(c: RC.Code, n: nat): (f: seq<RC.Code>)
  {
    seq(n, _ => c)
  }

  lemma {:induction false} MeasureAppend(f: seq<RC.Code>, g: seq<RC.Code>)
    ensures RC.FormatSize(f + g) == RC.FormatSize(f) + RC.FormatSize(g)
    ensures RC.Arity(f + g) == RC.Arity(f) + RC.Arity(g)
    decreases |f|
  {
    if f == [] {
      assert f + g == g;
    } else {
      assert (f + g)[0] == f[0];
      assert (f + g)[1..] == f[1..] + g;
      MeasureAppend(f[1..], g);
    }
  }

  lemma {:induction false} MeasureRun(c: RC.Code, n: nat)
    ensures RC.FormatSize(Run(c, n)) == Times(n, RC.Width(c))
    ensures RC.Arity(Run(c, n)) == if c == RC.X then 0 else n
    ensures c != RC.X ==> NoPad(Run(c, n))
  {
    if n > 0 {
      assert Run(c, n)[1..] == Run(c, n - 1);
      MeasureRun(c, n - 1);
    }
  }

  /** `>5I2H`: version and flags, creation and modification time, time
      scale, duration, language and quality. */
  const MdhdFormat: seq<RC.Code> := Run(RC.I, 5) + Run(RC.H, 2)

  /** `>6I`: the handler fields before the component name. */
  const HdlrFormat: seq<RC.Code> := Run(RC.I, 6)

  /** `>4I4xI8x3H2x`: the 40 bytes of the track header before the matrix. */
  const TkhdFormat: seq<RC.Code> :=
    Run(RC.I, 4) + Run(RC.X, 4) + Run(RC.I, 1) + Run(RC.X, 8) + Run(RC.H, 3) + Run(RC.X, 2)

  /** `>9I`: the display matrix. */
  const MatrixFormat: seq<RC.Code> := Run(RC.I, 9)

  lemma MdhdFormatSize()
    ensures RC.FormatSize(MdhdFormat) == 24 && RC.Arity(MdhdFormat) == 7 && NoPad(MdhdFormat)
  {
    MeasureRun(RC.I, 5);
    MeasureRun(RC.H, 2);
    TimesIsProduct(5, 4);
    TimesIsProduct(2, 2);
    MeasureAppend(Run(RC.I, 5), Run(RC.H, 2));
    forall i | 0 <= i < |MdhdFormat| ensures MdhdFormat[i] != RC.X {
      if i < 5 { assert MdhdFormat[i] == Run(RC.I, 5)[i]; } else { assert MdhdFormat[i] == Run(RC.H, 2)[i - 5]; }
    }
  }

  lemma HdlrFormatSize()
    ensures RC.FormatSize(HdlrFormat) == 24 && RC.Arity(HdlrFormat) == 6 && NoPad(HdlrFormat)
  {
    MeasureRun(RC.I, 6);
    TimesIsProduct(6, 4);
  }

  lemma TkhdFormatSize()
    ensures RC.FormatSize(TkhdFormat) == 40 && RC.Arity(TkhdFormat) == 8
    ensures RC.FormatSize(MatrixFormat) == 36 && RC.Arity(MatrixFormat) == 9
  {
    MeasureRun(RC.I, 4);
    MeasureRun(RC.X, 4);
    MeasureRun(RC.I, 1);
    MeasureRun(RC.X, 8);
    MeasureRun(RC.H, 3);
    MeasureRun(RC.X, 2);
    MeasureRun(RC.I, 9);
    TimesIsProduct(4, 4);
    TimesIsProduct(4, 1);
    TimesIsProduct(1, 4);
    TimesIsProduct(8, 1);
    TimesIsProduct(3, 2);
    TimesIsProduct(2, 1);
    TimesIsProduct(9, 4);
    var t1 := Run(RC.I, 4) + Run(RC.X, 4);
    var t2 := t1 + Run(RC.I, 1);
    var t3 := t2 + Run(RC.X, 8);
    var t4 := t3 + Run(RC.H, 3);
    MeasureAppend(Run(RC.I, 4), Run(RC.X, 4));
    MeasureAppend(t1, Run(RC.I, 1));
    MeasureAppend(t2, Run(RC.X, 8));
    MeasureAppend(t3, Run(RC.H, 3));
    MeasureAppend(t4, Run(RC.X, 2));
  }

  /** `mdhd.unpack`: the whole payload is the seven fields. */
  function UnpackMdhd(data: seq<Byte>): Result<Legacy>
  {
    var vs :- Unpack(MdhdFormat, data);
    Ok(MediaHeader(vs))
  }

  /** A media header decodes exactly from 24 bytes, into seven values that
      pack back to the same bytes. */
  lemma MdhdSpec(data: seq<Byte>)
    ensures UnpackMdhd(data).Ok? <==> |data| == 24
    ensures UnpackMdhd(data).Ok? ==>
              |UnpackMdhd(data).value.values| == 7 && Pack(MdhdFormat, UnpackMdhd(data).value.values) == Ok(data)
  {
    MdhdFormatSize();
    if |data| == 24 {
      StructRepack(MdhdFormat, data);
    }
  }

  /** Packed media header fields decode to themselves. */
  lemma MdhdOfPacked(values: seq<int>)
    requires Pack(MdhdFormat, values).Ok?
    ensures UnpackMdhd(Pack(MdhdFormat, values).value) == Ok(MediaHeader(values))
  {
    MdhdFormatSize();
    StructRoundTrip(MdhdFormat, values);
  }

  /** `hdlr.unpack`: six u32 fields from the first 24 bytes, the rest as
      the component name. */
  function UnpackHdlr(data: seq<Byte>): Result<Legacy>
  {
    var vs :- Unpack(HdlrFormat, Slice(data, 0, 24));
    Ok(Handler(vs, Slice(data, 24, |data|)))
  }

  /** A handler decodes exactly from at least 24 bytes; the name is all
      that follows them and the six fields pack back to the first 24. */
  lemma HdlrSpec(data: seq<Byte>)
    ensures UnpackHdlr(data).Ok? <==> |data| >= 24
    ensures UnpackHdlr(data).Ok? ==>
              var h := UnpackHdlr(data).value;
              |h.values| == 6 && h.name == data[24..] && Pack(HdlrFormat, h.values) == Ok(data[..24])
  {
    HdlrFormatSize();
    if |data| >= 24 {
      StructRepack(HdlrFormat, data[..24]);
    }
  }

  /** Packed handler fields followed by a name decode to both. */
  lemma HdlrOfPacked(values: seq<int>, name: seq<Byte>)
    requires Pack(HdlrFormat, values).Ok?
    ensures UnpackHdlr(Pack(HdlrFormat, values).value + name) == Ok(Handler(values, name))
  {
    HdlrFormatSize();
    StructRoundTrip(HdlrFormat, values);
    var b := Pack(HdlrFormat, values).value + name;
    assert Slice(b, 0, 24) == Pack(HdlrFormat, values).value;
    assert Slice(b, 24, |b|) == name;
  }

  /** `tkhd.unpack`: the fixed fields from the first 40 bytes, the matrix
      from the next 36 and the track width and height from all the rest. */
  function UnpackTkhd(data: seq<Byte>): Result<Legacy>
  {
    var head :- Unpack(TkhdFormat, Slice(data, 0, 40));
    var matrix :- Unpack(MatrixFormat, Slice(data, 40, 76));
    var dims :- Unpack(Pair, Slice(data, 76, |data|));
    Ok(TrackHeader(head, matrix, dims))
  }

  /** A track header decodes exactly from 84 bytes: any other length makes
      one of the three unpacks see the wrong number of bytes. */
  lemma TkhdSpec(data: seq<Byte>)
    ensures UnpackTkhd(data).Ok? <==> |data| == 84
    ensures UnpackTkhd(data).Ok? ==>
              var t := UnpackTkhd(data).value;
              |t.head| == 8 && |t.matrix| == 9 && |t.dims| == 2
  {
    TkhdFormatSize();
    FormatSizes();
    if |data| >= 76 {
      assert |Slice(data, 76, |data|)| == |data| - 76;
    }
  }

  /** Packed track header parts, laid end to end, decode to themselves. */
  lemma TkhdOfPacked(head: seq<int>, matrix: seq<int>, dims: seq<int>)
    requires Pack(TkhdFormat, head).Ok? && Pack(MatrixFormat, matrix).Ok? && Pack(Pair, dims).Ok?
    ensures UnpackTkhd(Pack(TkhdFormat, head).value + Pack(MatrixFormat, matrix).value + Pack(Pair, dims).value) ==
              Ok(TrackHeader(head, matrix, dims))
  {
    TkhdFormatSize();
    FormatSizes();
    StructRoundTrip(TkhdFormat, head);
    StructRoundTrip(MatrixFormat, matrix);
    StructRoundTrip(Pair, dims);
    var h, m, d := Pack(TkhdFormat, head).value, Pack(MatrixFormat, matrix).value, Pack(Pair, dims).value;
    var b := h + m + d;
    assert |h| == 40 && |m| == 36 && |d| == 8;
    assert b[..40] == h;
    assert Slice(b, 0, 40) == h;
    assert b[40..76] == m;
    assert Slice(b, 40, 76) == m;
    assert b[76..] == d;
    assert Slice(b, 76, |b|) == d;
  }

  // ---------------------------------------------------------------------
  // dref

  /** `>I4xI`: an entry's size, then past its tag its version and flags. */
  const DrefEntryFormat: seq<RC.Code> := [RC.I, RC.X, RC.X, RC.X, RC.X, RC.I]

  lemma DrefEntryValues(b: seq<Byte>)
    ensures RC.FormatSize(DrefEntryFormat) == 12
    ensures |b| == 12 ==> RC.UnpackCodes(DrefEntryFormat, b) == [ReadU32(b[..4]), ReadU32(b[8..12])]
  {
    var f := DrefEntryFormat;
    assert f[1..] == [RC.X, RC.X, RC.X, RC.X, RC.I];
    assert f[1..][1..] == [RC.X, RC.X, RC.X, RC.I];
    assert f[1..][1..][1..] == [RC.X, RC.X, RC.I];
    assert f[1..][1..][1..][1..] == [RC.X, RC.I];
    assert f[1..][1..][1..][1..][1..] == [RC.I];
    if |b| == 12 {
      var c := b[4..];
      assert RC.UnpackCodes(f, b) == [ReadU32(b[..4])] + RC.UnpackCodes(f[1..], c);
      assert RC.UnpackCodes(f[1..], c) == RC.UnpackCodes([RC.X, RC.X, RC.X, RC.I], c[1..]);
      assert RC.UnpackCodes([RC.X, RC.X, RC.X, RC.I], c[1..]) == RC.UnpackCodes([RC.X, RC.X, RC.I], c[2..]);
      assert RC.UnpackCodes([RC.X, RC.X, RC.I], c[2..]) == RC.UnpackCodes([RC.X, RC.I], c[3..]);
      assert RC.UnpackCodes([RC.X, RC.I], c[3..]) == RC.UnpackCodes([RC.I], c[4..]);
      assert c[4..] == b[8..12];
    }
  }

  /** `struct.unpack('>I4xI', data[offset:offset+12])`: an entry's size
      and version, read directly; `DrefEntryIsStruct` shows it is the
      generic unpack. */
  function UnpackDrefEntry(data: seq<Byte>, offset: nat): (r: Result<(nat, int)>)
  {
    if offset + 12 > |data| then Err(StructError)
    else Ok((BigEndian(data[offset..offset + 4]), BigEndian(data[offset + 8..offset + 12])))
  }

  /** A four-byte big-endian word read digit by digit is `ReadU32`. */
  lemma WordValue(s: seq<Byte>)
    requires |s| == 4
    ensures BigEndian(s) == ReadU32(s)
  {
    var s3, s2, s1 := s[..3], s[..2], s[..1];
    assert s1[..0] == [];
    assert BigEndian(s1) == s[0];
    assert s2[..1] == s1;
    assert BigEndian(s2) == BigEndian(s1) * 256 + s[1];
    assert s3[..2] == s2;
    assert BigEndian(s3) == BigEndian(s2) * 256 + s[2];
    assert s[..3] == s3;
    assert BigEndian(s) == BigEndian(s3) * 256 + s[3];
  }

  lemma DrefEntryIsStruct(data: seq<Byte>, offset: nat)
    ensures UnpackDrefEntry(data, offset) ==
              (var v :- Unpack(DrefEntryFormat, Slice(data, offset, offset + 12)); Ok((v[0], v[1])))
  {
    var e := Slice(data, offset, offset + 12);
    DrefEntryValues(e);
    assert |e| == 12 <==> offset + 12 <= |data|;
    if |e| == 12 {
      WordValue(e[..4]);
      WordValue(e[8..12]);
      assert e[..4] == data[offset..offset + 4];
      assert e[8..12] == data[offset + 8..offset + 12];
    }
  }

  /** The loop of `dref.unpack`: entry by entry, the size and version come
      from the entry's first 12 bytes, the tag from its bytes 4 to 8, and
      the entry keeps all `size` of its bytes. Each entry rebinds `vf`, so
      the version returned is the one last bound. */
  function DrefItems(data: seq<Byte>, offset: nat, n: nat, vf: int): Result<(seq<DataReference>, int)>
    decreases n
  {
    if n == 0 then Ok(([], vf))
    else
      var h :- UnpackDrefEntry(data, offset);
      var item := DataReference(Slice(data, offset + 4, offset + 8), h.1, Slice(data, offset, offset + h.0));
      var rest :- DrefItems(data, offset + h.0, n - 1, h.1);
      Ok(([item] + rest.0, rest.1))
  }

  /** `dref.unpack`: the `(vf, nitems)` header, then `nitems` entries. */
  function UnpackDref(data: seq<Byte>): Result<Legacy>
  {
    var head :- Unpack(Pair, Slice(data, 0, 8));
    var items :- DrefItems(data, 8, head[1], head[0]);
    Ok(References(items.1, items.0))
  }

  lemma {:induction false} DrefItemsLast(data: seq<Byte>, offset: nat, n: nat, vf: int)
    requires DrefItems(data, offset, n, vf).Ok?
    ensures var (items, last) := DrefItems(data, offset, n, vf).value;
            |items| == n && last == (if n == 0 then vf else items[n - 1].vf)
    decreases n
  {
    if n > 0 {
      var h := UnpackDrefEntry(data, offset).value;
      DrefItemsLast(data, offset + h.0, n - 1, h.1);
    }
  }

  /** A decoded dref holds as many entries as its header announces, and
      its version is the header's only when there are none: otherwise it is
      the version of the last entry, the loop having rebound `vf`. */
  lemma DrefVersionIsLastEntry(data: seq<Byte>)
    requires UnpackDref(data).Ok?
    ensures |data| >= 8
    ensures var d := UnpackDref(data).value;
            && |d.refs| == ReadU32(data[4..8])
            && d.vf == (if d.refs == [] then ReadU32(data[..4]) else d.refs[|d.refs| - 1].vf)
  {
    FormatSizes();
    PairValues(data[..8]);
    var head := RC.UnpackCodes(Pair, data[..8]);
    assert data[..8][4..8] == data[4..8];
    DrefItemsLast(data, 8, head[1], head[0]);
  }

  /** A well-formed data reference entry: its first four bytes state its
      own length, bytes 4 to 8 are its tag and bytes 8 to 12 its version. */
  predicate WellFormedRef(e: DataReference)
  {
    |e.data| >= 12 && ReadU32(e.data[..4]) == |e.data| && e.tag == e.data[4..8] && e.vf == ReadU32(e.data[8..12])
  }

  /** Entries laid end to end. */
  function RefsLayout(refs: seq<DataReference>): seq<Byte>
  {
    if refs == [] then [] else refs[0].data + RefsLayout(refs[1..])
  }

  /** One well-formed entry at `offset`: the step reads its size, version,
      tag and bytes back. */
  lemma DrefStep(data: seq<Byte>, offset: nat, e: DataReference)
    requires WellFormedRef(e)
    requires offset + |e.data| <= |data| && data[offset..offset + |e.data|] == e.data
    ensures UnpackDrefEntry(data, offset) == Ok((|e.data|, e.vf))
    ensures Slice(data, offset + 4, offset + 8) == e.tag
    ensures Slice(data, offset, offset + |e.data|) == e.data
  {
    SubSlice(data, offset, offset + |e.data|, 0, 4);
    SubSlice(data, offset, offset + |e.data|, 4, 8);
    SubSlice(data, offset, offset + |e.data|, 8, 12);
    WordValue(e.data[..4]);
    WordValue(e.data[8..12]);
  }

  lemma SubSlice<T>(s: seq<T>, a: nat, b: nat, i: nat, j: nat)
    requires a <= b <= |s| && i <= j <= b - a
    ensures s[a..b][i..j] == s[a + i..a + j]
  {
    forall k | 0 <= k < j - i
      ensures s[a..b][i..j][k] == s[a + i..a + j][k]
    {
      assert s[a..b][i..j][k] == s[a..b][i + k] == s[a + i + k];
    }
  }

  /** The loop after a successful entry read: the entry, then the rest. */
  lemma DrefItemsCons(data: seq<Byte>, offset: nat, m: nat, vf: int, size: nat, vf1: int, rest: seq<DataReference>, last: int)
    requires UnpackDrefEntry(data, offset) == Ok((size, vf1))
    requires DrefItems(data, offset + size, m, vf1) == Ok((rest, last))
    ensures DrefItems(data, offset, m + 1, vf) ==
              Ok(([DataReference(Slice(data, offset + 4, offset + 8), vf1, Slice(data, offset, offset + size))] + rest, last))
  {
  }

  /** A well-formed entry at `offset` before entries the loop reads as
      `rest`: the loop reads the entry, then `rest`. */
  lemma DrefItemsStep(data: seq<Byte>, offset: nat, vf: int, e: DataReference, rest: seq<DataReference>, last: int)
    requires WellFormedRef(e)
    requires offset + |e.data| <= |data| && data[offset..offset + |e.data|] == e.data
    requires DrefItems(data, offset + |e.data|, |rest|, e.vf) == Ok((rest, last))
    ensures DrefItems(data, offset, |rest| + 1, vf) == Ok(([e] + rest, last))
  {
    DrefStep(data, offset, e);
    DrefItemsCons(data, offset, |rest|, vf, |e.data|, e.vf, rest, last);
  }

  /** Every entry well formed, stated entry by entry from the front. */
  predicate WellFormedRefs(refs: seq<DataReference>)
  {
    refs == [] || (WellFormedRef(refs[0]) && WellFormedRefs(refs[1..]))
  }

  lemma {:induction false} WellFormedRefsAll(refs: seq<DataReference>)
    requires forall k | 0 <= k < |refs| :: WellFormedRef(refs[k])
    ensures WellFormedRefs(refs)
  {
    if refs != [] {
      WellFormedRefsAll(refs[1..]);
    }
  }

  /** The entries lie in `data` one after the other from `offset`. */
  predicate LaidOut(data: seq<Byte>, offset: nat, refs: seq<DataReference>)
    decreases |refs|
  {
    refs == [] ||
    (offset + |refs[0].data| <= |data| && data[offset..offset + |refs[0].data|] == refs[0].data &&
     LaidOut(data, offset + |refs[0].data|, refs[1..]))
  }

  lemma {:induction false} LaidOutOfLayout(data: seq<Byte>, offset: nat, refs: seq<DataReference>)
    requires offset <= |data| && data[offset..] == RefsLayout(refs)
    ensures LaidOut(data, offset, refs)
    decreases |refs|
  {
    if refs != [] {
      var e := refs[0];
      var o := offset + |e.data|;
      assert data[offset..] == e.data + RefsLayout(refs[1..]);
      assert data[offset..o] == data[offset..][..|e.data|];
      assert data[o..] == data[offset..][|e.data|..];
      LaidOutOfLayout(data, o, refs[1..]);
    }
  }

  lemma {:induction false} DrefItemsOf(data: seq<Byte>, offset: nat, refs: seq<DataReference>, vf: int)
    requires WellFormedRefs(refs) && LaidOut(data, offset, refs)
    ensures DrefItems(data, offset, |refs|, vf) == Ok((refs, if refs == [] then vf else refs[|refs| - 1].vf))
    decreases |refs|
  {
    if refs != [] {
      var e := refs[0];
      var rest := refs[1..];
      assert [e] + rest == refs;
      DrefItemsOf(data, offset + |e.data|, rest, e.vf);
      var last := if rest == [] then e.vf else rest[|rest| - 1].vf;
      assert last == refs[|refs| - 1].vf by {
        if rest != [] {
          assert rest[|rest| - 1] == refs[|refs| - 1];
        }
      }
      DrefItemsStep(data, offset, vf, e, rest, last);
    }
  }

  /** A header followed by `rest`: the version and count come back. */
  lemma HeaderOf(vf: nat, n: nat, rest: seq<Byte>)
    requires vf < U32_LIMIT && n < U32_LIMIT
    ensures var data := U32(vf) + U32(n) + rest;
            Unpack(Pair, Slice(data, 0, 8)) == Ok([vf, n]) && data[8..] == rest
  {
    FormatSizes();
    var data := U32(vf) + U32(n) + rest;
    var h := data[..8];
    assert h == U32(vf) + U32(n);
    assert Slice(data, 0, 8) == h;
    PairValues(h);
    assert h[..4] == U32(vf);
    assert h[4..8] == U32(n);
    ReadU32OfU32(vf);
    ReadU32OfU32(n);
  }

  /** Well-formed entries laid after a header decode to themselves; the
      version decoded is the header's when there are no entries and the
      last entry's otherwise. */
  lemma DrefRoundTrip(vf: nat, refs: seq<DataReference>)
    requires vf < U32_LIMIT && |refs| < U32_LIMIT
    requires forall k | 0 <= k < |refs| :: WellFormedRef(refs[k])
    ensures UnpackDref(U32(vf) + U32(|refs|) + RefsLayout(refs)) ==
              Ok(References(if refs == [] then vf else refs[|refs| - 1].vf, refs))
  {
    var data := U32(vf) + U32(|refs|) + RefsLayout(refs);
    HeaderOf(vf, |refs|, RefsLayout(refs));
    WellFormedRefsAll(refs);
    LaidOutOfLayout(data, 8, refs);
    DrefItemsOf(data, 8, refs, vf);
  }

  // ---------------------------------------------------------------------
  // stsd

  /** `>H`: the data reference index. */
  const Dri: seq<RC.Code> := [RC.H]

  /** The two reads of a description's header, `>I` from its first four
      bytes and `>H` from bytes 14 to 16, read directly; either fails when
      the data runs out, and `DescHeadIsStruct` shows they are the generic
      unpacks. */
  function UnpackDescHead(data: seq<Byte>, offset: nat): (r: Result<(nat, int)>)
  {
    if offset + 16 > |data| then Err(StructError)
    else Ok((BigEndian(data[offset..offset + 4]), (data[offset + 14] as int) * 0x100 + data[offset + 15]))
  }

  lemma DescHeadIsStruct(data: seq<Byte>, offset: nat)
    ensures UnpackDescHead(data, offset) ==
              (var size :- Unpack(Single, Slice(data, offset, offset + 4));
               var di :- Unpack(Dri, Slice(data, offset + 14, offset + 16));
               Ok((size[0], di[0])))
  {
    FormatSizes();
    if offset + 4 <= |data| {
      WordValue(data[offset..offset + 4]);
    }
    assert |Slice(data, offset, offset + 4)| == 4 <==> offset + 4 <= |data|;
    assert |Slice(data, offset + 14, offset + 16)| == 2 <==> offset + 16 <= |data|;
  }

  /** The loop of `stsd.unpack`: a description's size from its first four
      bytes, its format from the next four, its data reference index from
      bytes 14 to 16, and as its data the `size` bytes from byte 16 on; the
      next description is looked for `size` bytes further. */
  function DescItems(data: seq<Byte>, offset: nat, n: nat): Result<seq<SampleDescription>>
    decreases n
  {
    if n == 0 then Ok([])
    else
      var (size, di) :- UnpackDescHead(data, offset);
      var item := SampleDescription(Slice(data, offset + 4, offset + 8), di, Slice(data, offset + 16, offset + 16 + size));
      var rest :- DescItems(data, offset + size, n - 1);
      Ok([item] + rest)
  }

  /** `stsd.unpack`: the `(vf, nitems)` header, then `nitems` descriptions. */
  function UnpackStsd(data: seq<Byte>): Result<Legacy>
  {
    var head :- Unpack(Pair, Slice(data, 0, 8));
    var items :- DescItems(data, 8, head[1]);
    Ok(Descriptions(head[0], items))
  }

  /** A description that fits the sample description layout. */
  predicate WellFormedDesc(d: SampleDescription)
  {
    |d.fmt| == 4 && 0 <= d.dri < 0x1_0000 && 16 + |d.data| < U32_LIMIT
  }

  /** The 16 bytes before a description's data: the size of the whole
      description, the format, six reserved bytes and the data reference
      index. */
  function DescHead(d: SampleDescription): (h: seq<Byte>)
    requires WellFormedDesc(d)
    ensures |h| == 16
  {
    U32(16 + |d.data|) + d.fmt + [0, 0, 0, 0, 0, 0] + [d.dri / 0x100, d.dri % 0x100]
  }

  lemma DescHeadFields(d: SampleDescription)
    requires WellFormedDesc(d)
    ensures var h := DescHead(d);
            ReadU32(h[..4]) == 16 + |d.data| && h[4..8] == d.fmt && (h[14] as int) * 0x100 + h[15] == d.dri
  {
    var h := DescHead(d);
    assert h[..4] == U32(16 + |d.data|);
    ReadU32OfU32(16 + |d.data|);
  }

  /** Descriptions laid end to end. */
  function DescsLayout(ds: seq<SampleDescription>): (b: seq<Byte>)
    requires forall k | 0 <= k < |ds| :: WellFormedDesc(ds[k])
  {
    if ds == [] then [] else DescHead(ds[0]) + ds[0].data + DescsLayout(ds[1..])
  }

  /** Python's `t[:16]`. */
  function Prefix16(t: seq<Byte>): seq<Byte>
  {
    if |t| >= 16 then t[..16] else t
  }

  /** What the decoder makes of laid-out descriptions: each one's data runs
      on into whatever follows it, up to 16 bytes. */
  function AsRead(ds: seq<SampleDescription>): (rs: seq<SampleDescription>)
    requires forall k | 0 <= k < |ds| :: WellFormedDesc(ds[k])
    ensures |rs| == |ds|
  {
    if ds == [] then []
    else [ds[0].(data := ds[0].data + Prefix16(DescsLayout(ds[1..])))] + AsRead(ds[1..])
  }

  /** What follows a description in the layout is the next description's
      16-byte header, or nothing after the last one. */
  lemma AsReadOverlap(ds: seq<SampleDescription>, k: nat)
    requires forall j | 0 <= j < |ds| :: WellFormedDesc(ds[j])
    requires k < |ds|
    ensures AsRead(ds)[k].fmt == ds[k].fmt && AsRead(ds)[k].dri == ds[k].dri
    ensures AsRead(ds)[k].data == ds[k].data + (if k + 1 < |ds| then DescHead(ds[k + 1]) else [])
    decreases k
  {
    if k == 0 {
      if |ds| > 1 {
        var t := DescsLayout(ds[1..]);
        assert t == DescHead(ds[1]) + ds[1].data + DescsLayout(ds[2..]) by {
          assert ds[1..][1..] == ds[2..];
        }
        assert t[..16] == DescHead(ds[1]);
      }
    } else {
      AsReadOverlap(ds[1..], k - 1);
    }
  }

  /** One laid-out description at `offset`, followed by `tail`: the step
      reads its size, format and index back, and as its data its own data
      followed by up to 16 bytes of `tail`. */
  lemma DescStep(data: seq<Byte>, offset: nat, d: SampleDescription, tail: seq<Byte>)
    requires WellFormedDesc(d)
    requires offset <= |data| && data[offset..] == DescHead(d) + d.data + tail
    ensures UnpackDescHead(data, offset) == Ok((16 + |d.data|, d.dri))
    ensures Slice(data, offset + 4, offset + 8) == d.fmt
    ensures Slice(data, offset + 16, offset + 32 + |d.data|) == d.data + Prefix16(tail)
    ensures data[offset + 16 + |d.data|..] == tail
  {
    var h := DescHead(d);
    var r := data[offset..];
    DescHeadFields(d);
    assert data[offset..offset + 4] == h[..4] by {
      assert data[offset..offset + 4] == r[..4];
    }
    WordValue(h[..4]);
    assert data[offset + 14] == h[14] && data[offset + 15] == h[15] by {
      assert data[offset + 14] == r[14];
      assert data[offset + 15] == r[15];
    }
    assert data[offset + 4..offset + 8] == h[4..8] by {
      assert data[offset + 4..offset + 8] == r[4..8];
    }
    assert data[offset + 16..] == d.data + tail by {
      assert data[offset + 16..] == r[16..];
    }
    assert data[offset + 16 + |d.data|..] == tail by {
      assert data[offset + 16 + |d.data|..] == data[offset + 16..][|d.data|..];
    }
  }

  /** One turn of the loop: a head read at `offset`, then the loop's
      reading of what comes `size` bytes further. */
  lemma DescItemsCons(data: seq<Byte>, offset: nat, size: nat, next: nat, m: nat, dri: int,
                      fmt: seq<Byte>, x: seq<Byte>, rest: seq<SampleDescription>)
    requires UnpackDescHead(data, offset) == Ok((size, dri)) && next == offset + size
    requires Slice(data, offset + 4, offset + 8) == fmt && Slice(data, offset + 16, offset + 16 + size) == x
    requires DescItems(data, next, m) == Ok(rest)
    ensures DescItems(data, offset, m + 1) == Ok([SampleDescription(fmt, dri, x)] + rest)
  {
  }

  lemma {:induction false} DescItemsOf(data: seq<Byte>, offset: nat, ds: seq<SampleDescription>)
    requires forall k | 0 <= k < |ds| :: WellFormedDesc(ds[k])
    requires offset <= |data| && data[offset..] == DescsLayout(ds)
    ensures DescItems(data, offset, |ds|) == Ok(AsRead(ds))
    decreases |ds|
  {
    if ds != [] {
      var d := ds[0];
      var rest := ds[1..];
      var tail := DescsLayout(rest);
      var next := offset + 16 + |d.data|;
      assert next <= |data| && data[next..] == tail by {
        assert data[offset..] == DescHead(d) + d.data + tail;
        DescStep(data, offset, d, tail);
      }
      assert forall k | 0 <= k < |rest| :: WellFormedDesc(rest[k]) by {
        assert forall k | 0 <= k < |rest| :: rest[k] == ds[k + 1];
      }
      var rs := AsRead(rest);
      assert DescItems(data, next, |rest|) == Ok(rs) by {
        DescItemsOf(data, next, rest);
      }
      var first := d.(data := d.data + Prefix16(tail));
      var size := 16 + |d.data|;
      assert UnpackDescHead(data, offset) == Ok((size, d.dri)) && Slice(data, offset + 4, offset + 8) == d.fmt
          && Slice(data, offset + 16, offset + 16 + size) == d.data + Prefix16(tail) by {
        assert data[offset..] == DescHead(d) + d.data + tail;
        DescStep(data, offset, d, tail);
      }
      DescItemsCons(data, offset, size, next, |rest|, d.dri, d.fmt, d.data + Prefix16(tail), rs);
      assert AsRead(ds) == [first] + rs;
      assert |rest| + 1 == |ds|;
    }
  }

  /** Laid-out descriptions after a header decode, as the decoder is
      written, to descriptions whose data has taken in the header of the
      next one. */
  lemma StsdAsWritten(vf: nat, ds: seq<SampleDescription>)
    requires vf < U32_LIMIT && |ds| < U32_LIMIT
    requires forall k | 0 <= k < |ds| :: WellFormedDesc(ds[k])
    ensures UnpackStsd(U32(vf) + U32(|ds|) + DescsLayout(ds)) == Ok(Descriptions(vf, AsRead(ds)))
  {
    var data := U32(vf) + U32(|ds|) + DescsLayout(ds);
    HeaderOf(vf, |ds|, DescsLayout(ds));
    DescItemsOf(data, 8, ds);
  }

  /** Alone, a description is read back as it was. */
  lemma AsReadSingle(d: SampleDescription)
    requires WellFormedDesc(d)
    ensures AsRead([d]) == [d]
  {
    assert [d][1..] == [];
    assert Prefix16(DescsLayout([])) == [];
    assert d.data + [] == d.data;
  }

  // ---------------------------------------------------------------------
  // Containers decoded by tag name

  /** `tag.decode('ascii', 'ignore')`: bytes below 128 become characters,
      the others are dropped. */
  function AsciiIgnore(tag: seq<Byte>): (name: string)
    ensures |name| <= |tag|
  {
    if tag == [] then ""
    else (if tag[0] < 128 then [tag[0] as char] else "") + AsciiIgnore(tag[1..])
  }

  /** A tag whose name keeps all its letters is plain ASCII, spelled by
      that name. */
  lemma {:induction false} AsciiIgnoreFull(s: seq<Byte>)
    requires |AsciiIgnore(s)| == |s|
    ensures forall i | 0 <= i < |s| :: s[i] < 128 && AsciiIgnore(s)[i] as int == s[i]
  {
    if s != [] {
      var rest := AsciiIgnore(s[1..]);
      if s[0] >= 128 {
        assert false;
      } else {
        assert AsciiIgnore(s) == [s[0] as char] + rest;
        AsciiIgnoreFull(s[1..]);
        forall i | 0 <= i < |s|
          ensures s[i] < 128 && AsciiIgnore(s)[i] as int == s[i]
        {
          if i > 0 {
            assert s[i] == s[1..][i - 1];
          }
        }
      }
    }
  }

  /** The name of an ASCII tag is the four letters it was spelled from. */
  lemma NameOfAscii(name: string)
    requires |name| == 4 && forall i :: 0 <= i < 4 ==> name[i] as int < 128
    ensures AsciiIgnore(Ascii(name)) == name
  {
    var t := Ascii(name);
    assert t[1..][1..][1..][1..] == [];
    assert AsciiIgnore(t[1..][1..][1..]) == [name[3]];
    assert AsciiIgnore(t[1..][1..]) == [name[2], name[3]];
    assert AsciiIgnore(t[1..]) == [name[1], name[2], name[3]];
  }

  /** A tag whose name has four letters is the ASCII spelling of that name. */
  lemma FourLetters(t: Tag)
    requires |AsciiIgnore(t)| == 4
    ensures forall i :: 0 <= i < 4 ==> AsciiIgnore(t)[i] as int < 128
    ensures t == Ascii(AsciiIgnore(t))
  {
    AsciiIgnoreFull(t);
  }

  /** The tags whose name is one of `names`. */
  function Named(names: set<string>): (tags: set<Tag>)
  {
    set a: Byte, b: Byte, c: Byte, d: Byte
      | 0 <= a < 256 && 0 <= b < 256 && 0 <= c < 256 && 0 <= d < 256 && AsciiIgnore([a, b, c, d]) in names
      :: [a, b, c, d]
  }

  lemma NamedReads(names: set<string>, t: Tag)
    ensures t in Named(names) <==> AsciiIgnore(t) in names
  {
    assert t == [t[0], t[1], t[2], t[3]];
  }

  /** The names a decoder of `movfile.py` exists for. */
  const Decoders: set<string> :=
    {"moov", "trak", "tkhd", "mdia", "mdhd", "hdlr", "minf", "dinf",
     "dref", "stbl", "stsd", "stts", "stss", "stsz", "stsc", "stco"}

  /** The fields of `moov`: none has a decoder, and `tracks` is set
      afterwards. */
  const MoovFields: set<string> := {"pfrl", "mvhd", "clip", "udta", "tracks"}

  /** The fields of the other containers. */
  function FieldsOf(kind: string): set<string>
  {
    match kind
    case "trak" => {"prfl", "tkhd", "tapt", "clip", "matt", "edts", "tref", "txas", "load", "imap", "mdia", "udta"}
    case "mdia" => {"mdhd", "elng", "hdlr", "minf", "udta"}
    case "minf" => {"vmhd", "hdlr", "dinf", "stbl"}
    case "stbl" => {"stsd", "stts", "ctts", "cslg", "stss", "stps", "stsc", "stsz", "stco", "stsh", "sgpd", "sbgp", "sdtp"}
    case _ => {}
  }

  /** Every field starts out as None. */
  function Blank(fields: set<string>): (kw: map<string, Option<Legacy>>)
  {
    map k | k in fields :: None
  }

  /** The children whose payload is read: those collected separately, and
      the fields a decoder exists for. */
  function Reading(fields: set<string>, collect: set<string>): set<string>
  {
    collect + fields * Decoders
  }

  /** The children of a container as `iter_atoms` walks them, reading the
      payload of the ones named in `names`. */
  function WalkOf(data: seq<Byte>, names: set<string>): Walk
  {
    IterAtoms(MakeRoot(Stream(data, 0)), Stream(data, 0), Only(Named(names)))
  }

  /** Each child carries its payload exactly when its name was asked for,
      and every payload is shorter than `bound`. */
  predicate Loaded(cs: seq<Child>, names: set<string>, bound: nat)
  {
    forall c | c in cs ::
      (c.payload.Some? <==> AsciiIgnore(c.tag) in names) && (c.payload.Some? ==> |c.payload.value| < bound)
  }

  /** A walk's children carry their payload exactly when the selection
      reads their tag, and every payload lies inside the data. */
  lemma {:induction false} DescribesPayloads(data: seq<Byte>, at: nat, cs: seq<Child>, want: Select)
    requires Describes(data, at, cs, want)
    ensures forall c | c in cs ::
      (c.payload.Some? <==> want.Reads(c.tag)) && (c.payload.Some? ==> |c.payload.value| < |data|)
    decreases |cs|
  {
    if cs != [] {
      DescribesPayloads(data, at + cs[0].size, cs[1..], want);
      assert forall c | c in cs :: c == cs[0] || c in cs[1..];
    }
  }

  lemma WalkLoaded(data: seq<Byte>, names: set<string>)
    ensures Loaded(WalkOf(data, names).children, names, |data|)
  {
    var want := Only(Named(names));
    ChildLoopDescribes(MakeRoot(Stream(data, 0)), Stream(data, 0), want);
    var cs := WalkOf(data, names).children;
    DescribesPayloads(data, 0, cs, want);
    forall c | c in cs
      ensures c.payload.Some? <==> AsciiIgnore(c.tag) in names
    {
      NamedReads(names, c.tag);
    }
  }

  /** The loop of `_unpack_atoms`: a child that is neither a field nor
      collected separately is skipped with a warning, a collected one is
      left for the caller, and a field with a decoder is set to the decoded
      payload, a later child of the same name replacing an earlier one. */
  function Fill(fields: set<string>, collect: set<string>, cs: seq<Child>, bound: nat,
                kw: map<string, Option<Legacy>>): Result<map<string, Option<Legacy>>>
    requires Loaded(cs, Reading(fields, collect), bound)
    decreases bound, 0, |cs|
  {
    if cs == [] then Ok(kw)
    else
      var c := cs[0];
      var name := AsciiIgnore(c.tag);
      if name !in fields || name in collect || name !in Decoders then
        Fill(fields, collect, cs[1..], bound, kw)
      else
        var v :- DecodeAs(name, c.payload.value);
        Fill(fields, collect, cs[1..], bound, kw[name := Some(v)])
  }

  /** `globals()[name].unpack(data)`. */
  function DecodeAs(name: string, data: seq<Byte>): Result<Legacy>
    decreases |data|, 2
  {
    match name
    case "moov" => UnpackMoov(data)
    case "trak" => UnpackNode("trak", data)
    case "mdia" => UnpackNode("mdia", data)
    case "minf" => UnpackNode("minf", data)
    case "stbl" => UnpackNode("stbl", data)
    case "dinf" => UnpackDinf(data)
    case "tkhd" => UnpackTkhd(data)
    case "mdhd" => UnpackMdhd(data)
    case "hdlr" => UnpackHdlr(data)
    case "dref" => UnpackDref(data)
    case "stsd" => UnpackStsd(data)
    case "stts" => UnpackStts(data)
    case "stss" => UnpackStss(data)
    case "stsz" => UnpackStsz(data)
    case "stsc" => UnpackStsc(data)
    case "stco" => UnpackStco(data)
    case _ => Err(KeyError)
  }

  /** `trak`, `mdia`, `minf` and `stbl`: the fields filled from the
      children; a child that fails to decode raises before anything that
      ended the walk after it. */
  function UnpackNode(kind: string, data: seq<Byte>): Result<Legacy>
    decreases |data|, 1
  {
    var fields := FieldsOf(kind);
    var w := WalkOf(data, Reading(fields, {}));
    WalkLoaded(data, Reading(fields, {}));
    var kw :- Fill(fields, {}, w.children, |data|, Blank(fields));
    if w.stop.Some? then Err(w.stop.value) else Ok(Record(kind, kw))
  }

  const TRAK: Tag := [0x74, 0x72, 0x61, 0x6b]

  /** The children whose tag is exactly `tag`, in order. */
  function Tagged(cs: seq<Child>, tag: Tag): (ts: seq<Child>)
    ensures forall c | c in ts :: c in cs && c.tag == tag
  {
    if cs == [] then []
    else (if cs[0].tag == tag then [cs[0]] else []) + Tagged(cs[1..], tag)
  }

  /** The tracks of `moov`: every collected child whose tag is exactly
      `trak` decoded as a track, in order. A child whose name is `trak` has
      that tag, so the collected children and the `trak` children agree. */
  function Tracks(cs: seq<Child>, bound: nat): Result<seq<Legacy>>
    requires forall i | 0 <= i < |cs| :: cs[i].payload.Some? && |cs[i].payload.value| < bound
    decreases bound, 0, |cs|
  {
    if cs == [] then Ok([])
    else
      var t :- UnpackNode("trak", cs[0].payload.value);
      var rest :- Tracks(cs[1..], bound);
      Ok([t] + rest)
  }

  const Collected: set<string> := {"trak"}

  /** `moov`: the tracks are collected separately, the other fields filled
      as in any container; `tracks` is then set to the decoded tracks. */
  function UnpackMoov(data: seq<Byte>): Result<Legacy>
    decreases |data|, 1
  {
    var fields := MoovFields;
    var w := WalkOf(data, Reading(fields, Collected));
    WalkLoaded(data, Reading(fields, Collected));
    var kw :- Fill(fields, Collected, w.children, |data|, Blank(fields));
    if w.stop.Some? then Err(w.stop.value)
    else
      var traks := Tagged(w.children, TRAK);
      MoovTraks(data);
      var tracks :- Tracks(traks, |data|);
      Ok(Movie(kw - {"tracks"}, tracks))
  }

  const DREF: Tag := [0x64, 0x72, 0x65, 0x66]

  /** The children `dinf` walks: only `dref` children are read, the others
      are skipped with a warning. */
  function DinfWalk(data: seq<Byte>): Walk
  {
    IterAtoms(MakeRoot(Stream(data, 0)), Stream(data, 0), Only({DREF}))
  }

  lemma DinfLoaded(data: seq<Byte>)
    ensures forall c | c in DinfWalk(data).children :: c.payload.Some? <==> c.tag == DREF
  {
    ChildLoopDescribes(MakeRoot(Stream(data, 0)), Stream(data, 0), Only({DREF}));
    DescribesPayloads(data, 0, DinfWalk(data).children, Only({DREF}));
  }

  /** The `dref` children decoded in order. */
  function Drefs(cs: seq<Child>): Result<seq<Legacy>>
    requires forall i | 0 <= i < |cs| :: cs[i].payload.Some?
  {
    if cs == [] then Ok([])
    else
      var d :- UnpackDref(cs[0].payload.value);
      var rest :- Drefs(cs[1..]);
      Ok([d] + rest)
  }

  /** `dinf`: the decoded `dref` children, the others skipped with a
      warning; a child that fails to decode raises before anything that
      ended the walk after it. */
  function UnpackDinf(data: seq<Byte>): Result<Legacy>
  {
    var w := DinfWalk(data);
    DinfLoaded(data);
    var refs :- Drefs(Tagged(w.children, DREF));
    if w.stop.Some? then Err(w.stop.value) else Ok(DataInfo(refs))
  }

  // ---------------------------------------------------------------------
  // What the containers decode to

  /** The last child named `k`, if any. */
  function LastNamed(cs: seq<Child>, k: string): (r: Option<Child>)
    ensures r.Some? ==> r.value in cs && AsciiIgnore(r.value.tag) == k
  {
    if cs == [] then None
    else match LastNamed(cs[1..], k)
      case Some(c) => Some(c)
      case None => if AsciiIgnore(cs[0].tag) == k then Some(cs[0]) else None
  }

  /** A field that the loop sets from a child's payload. */
  predicate Filled(fields: set<string>, collect: set<string>, k: string)
  {
    k in fields && k !in collect && k in Decoders
  }

  lemma LoadedTail(cs: seq<Child>, names: set<string>, bound: nat)
    requires cs != [] && Loaded(cs, names, bound)
    ensures Loaded(cs[1..], names, bound)
  {
    assert forall c | c in cs[1..] :: c in cs;
  }

  /** Filling never adds or removes a field. */
  lemma {:induction false} FillKeys(fields: set<string>, collect: set<string>, cs: seq<Child>, bound: nat,
                                    kw: map<string, Option<Legacy>>)
    requires Loaded(cs, Reading(fields, collect), bound)
    requires fields <= kw.Keys
    requires Fill(fields, collect, cs, bound, kw).Ok?
    ensures Fill(fields, collect, cs, bound, kw).value.Keys == kw.Keys
    decreases |cs|
  {
    if cs != [] {
      LoadedTail(cs, Reading(fields, collect), bound);
      var name := AsciiIgnore(cs[0].tag);
      if name !in fields || name in collect || name !in Decoders {
        FillKeys(fields, collect, cs[1..], bound, kw);
      } else {
        var v := DecodeAs(name, cs[0].payload.value).value;
        FillKeys(fields, collect, cs[1..], bound, kw[name := Some(v)]);
      }
    }
  }

  /** A field that a decoder fills holds the decoded payload of the last
      child of that name; every other field keeps its value. */
  lemma {:induction false} FillLast(fields: set<string>, collect: set<string>, cs: seq<Child>, bound: nat,
                                    kw: map<string, Option<Legacy>>, k: string)
    requires Loaded(cs, Reading(fields, collect), bound)
    requires Fill(fields, collect, cs, bound, kw).Ok? && k in kw
    ensures k in Fill(fields, collect, cs, bound, kw).value
    ensures !Filled(fields, collect, k) || LastNamed(cs, k).None? ==>
              Fill(fields, collect, cs, bound, kw).value[k] == kw[k]
    ensures Filled(fields, collect, k) && LastNamed(cs, k).Some? ==>
              var p := LastNamed(cs, k).value.payload.value;
              DecodeAs(k, p).Ok? && Fill(fields, collect, cs, bound, kw).value[k] == Some(DecodeAs(k, p).value)
    decreases |cs|
  {
    if cs != [] {
      LoadedTail(cs, Reading(fields, collect), bound);
      var name := AsciiIgnore(cs[0].tag);
      if name !in fields || name in collect || name !in Decoders {
        FillLast(fields, collect, cs[1..], bound, kw, k);
      } else {
        var v := DecodeAs(name, cs[0].payload.value).value;
        FillLast(fields, collect, cs[1..], bound, kw[name := Some(v)], k);
      }
    }
  }

  /** Filling succeeds exactly when every child that sets a field decodes. */
  lemma {:induction false} FillOutcome(fields: set<string>, collect: set<string>, cs: seq<Child>, bound: nat,
                                       kw: map<string, Option<Legacy>>)
    requires Loaded(cs, Reading(fields, collect), bound)
    ensures Fill(fields, collect, cs, bound, kw).Ok? <==>
              forall c | c in cs && Filled(fields, collect, AsciiIgnore(c.tag)) ::
                DecodeAs(AsciiIgnore(c.tag), c.payload.value).Ok?
    decreases |cs|
  {
    if cs != [] {
      LoadedTail(cs, Reading(fields, collect), bound);
      assert forall c | c in cs :: c == cs[0] || c in cs[1..];
      var name := AsciiIgnore(cs[0].tag);
      if name !in fields || name in collect || name !in Decoders {
        FillOutcome(fields, collect, cs[1..], bound, kw);
      } else {
        var r := DecodeAs(name, cs[0].payload.value);
        if r.Ok? {
          FillOutcome(fields, collect, cs[1..], bound, kw[name := Some(r.value)]);
        }
      }
    }
  }

  /** A container decodes when its walk ends cleanly and every child that
      sets a field decodes; a clean fill with a broken walk reports the
      walk's error. */
  lemma NodeOutcome(kind: string, data: seq<Byte>)
    ensures Loaded(WalkOf(data, Reading(FieldsOf(kind), {})).children, Reading(FieldsOf(kind), {}), |data|)
    ensures var w := WalkOf(data, Reading(FieldsOf(kind), {}));
            UnpackNode(kind, data).Ok? <==>
              w.stop.None? &&
              forall c | c in w.children && Filled(FieldsOf(kind), {}, AsciiIgnore(c.tag)) ::
                DecodeAs(AsciiIgnore(c.tag), c.payload.value).Ok?
    ensures var w := WalkOf(data, Reading(FieldsOf(kind), {}));
            w.stop.Some? && Fill(FieldsOf(kind), {}, w.children, |data|, Blank(FieldsOf(kind))).Ok? ==>
              UnpackNode(kind, data) == Err(w.stop.value)
  {
    var fields := FieldsOf(kind);
    WalkLoaded(data, Reading(fields, {}));
    FillOutcome(fields, {}, WalkOf(data, Reading(fields, {})).children, |data|, Blank(fields));
  }

  /** A container as its walk and its fill make it. */
  lemma NodeParts(kind: string, data: seq<Byte>)
    ensures Loaded(WalkOf(data, Reading(FieldsOf(kind), {})).children, Reading(FieldsOf(kind), {}), |data|)
    ensures var fields := FieldsOf(kind);
            var w := WalkOf(data, Reading(fields, {}));
            var f := Fill(fields, {}, w.children, |data|, Blank(fields));
            UnpackNode(kind, data) ==
              if f.Err? then Err(f.error)
              else if w.stop.Some? then Err(w.stop.value)
              else Ok(Record(kind, f.value))
  {
    WalkLoaded(data, Reading(FieldsOf(kind), {}));
  }

  /** What a fill from blank fields leaves in field `k`: the decoded
      payload of the last child named `k` when a decoder exists for it,
      None otherwise. */
  lemma FilledField(fields: set<string>, cs: seq<Child>, bound: nat, k: string)
    requires Loaded(cs, Reading(fields, {}), bound)
    requires Fill(fields, {}, cs, bound, Blank(fields)).Ok? && k in fields
    ensures k in Fill(fields, {}, cs, bound, Blank(fields)).value
    ensures var f := Fill(fields, {}, cs, bound, Blank(fields)).value;
            match LastNamed(cs, k)
            case None => f[k] == None
            case Some(c) =>
              if k in Decoders then DecodeAs(k, c.payload.value).Ok? && f[k] == Some(DecodeAs(k, c.payload.value).value)
              else f[k] == None
  {
    FillLast(fields, {}, cs, bound, Blank(fields), k);
  }

  /** A decoded container is a record of its kind with exactly its declared
      fields. */
  lemma NodeKeys(kind: string, data: seq<Byte>)
    requires UnpackNode(kind, data).Ok?
    ensures UnpackNode(kind, data).value.Record? && UnpackNode(kind, data).value.kind == kind
    ensures UnpackNode(kind, data).value.fields.Keys == FieldsOf(kind)
  {
    var fields := FieldsOf(kind);
    NodeParts(kind, data);
    FillKeys(fields, {}, WalkOf(data, Reading(fields, {})).children, |data|, Blank(fields));
  }

  /** Each field of a decoded container holds the decoded payload of the
      last child of that name when a decoder exists for it, and None
      otherwise. */
  lemma NodeField(kind: string, data: seq<Byte>, k: string)
    requires UnpackNode(kind, data).Ok? && k in FieldsOf(kind)
    ensures Loaded(WalkOf(data, Reading(FieldsOf(kind), {})).children, Reading(FieldsOf(kind), {}), |data|)
    ensures UnpackNode(kind, data).value.Record? && k in UnpackNode(kind, data).value.fields
    ensures var cs := WalkOf(data, Reading(FieldsOf(kind), {})).children;
            var f := UnpackNode(kind, data).value.fields;
            match LastNamed(cs, k)
            case None => f[k] == None
            case Some(c) =>
              if k in Decoders then DecodeAs(k, c.payload.value).Ok? && f[k] == Some(DecodeAs(k, c.payload.value).value)
              else f[k] == None
  {
    NodeParts(kind, data);
    FilledField(FieldsOf(kind), WalkOf(data, Reading(FieldsOf(kind), {})).children, |data|, k);
  }

  /** The tracks are the `trak` children decoded one by one, in order. */
  lemma {:induction false} TracksSpec(cs: seq<Child>, bound: nat)
    requires forall i | 0 <= i < |cs| :: cs[i].payload.Some? && |cs[i].payload.value| < bound
    ensures Tracks(cs, bound).Ok? <==> forall i | 0 <= i < |cs| :: UnpackNode("trak", cs[i].payload.value).Ok?
    ensures Tracks(cs, bound).Ok? ==>
              |Tracks(cs, bound).value| == |cs| &&
              forall i | 0 <= i < |cs| :: UnpackNode("trak", cs[i].payload.value) == Ok(Tracks(cs, bound).value[i])
    decreases |cs|
  {
    if cs != [] {
      TracksSpec(cs[1..], bound);
      assert forall i | 1 <= i < |cs| :: cs[i] == cs[1..][i - 1];
      if Tracks(cs, bound).Ok? {
        var rest := Tracks(cs[1..], bound).value;
        assert Tracks(cs, bound).value == [UnpackNode("trak", cs[0].payload.value).value] + rest;
      }
    }
  }

  /** The `trak` children of a `moov`, each read in full. */
  lemma MoovTraks(data: seq<Byte>)
    ensures forall c | c in Tagged(WalkOf(data, Reading(MoovFields, Collected)).children, TRAK) ::
              c.payload.Some? && |c.payload.value| < |data|
  {
    WalkLoaded(data, Reading(MoovFields, Collected));
    NameOfAscii("trak");
  }

  /** No field of `moov` has a decoder. */
  lemma MoovUndecoded()
    ensures MoovFields * Decoders == {}
  {
  }

  /** A fill in which no field has a decoder leaves every field as it was. */
  lemma {:induction false} FillIdle(fields: set<string>, collect: set<string>, cs: seq<Child>, bound: nat,
                                    kw: map<string, Option<Legacy>>)
    requires Loaded(cs, Reading(fields, collect), bound)
    requires fields * Decoders == {}
    ensures Fill(fields, collect, cs, bound, kw) == Ok(kw)
    decreases |cs|
  {
    if cs != [] {
      LoadedTail(cs, Reading(fields, collect), bound);
      var name := AsciiIgnore(cs[0].tag);
      assert !(name in fields && name in Decoders);
      FillIdle(fields, collect, cs[1..], bound, kw);
    }
  }

  /** `moov` as its walk, its tracks and its (idle) fill make it. */
  lemma MoovParts(data: seq<Byte>)
    ensures forall c | c in Tagged(WalkOf(data, Reading(MoovFields, Collected)).children, TRAK) ::
              c.payload.Some? && |c.payload.value| < |data|
    ensures var w := WalkOf(data, Reading(MoovFields, Collected));
            UnpackMoov(data) ==
              if w.stop.Some? then Err(w.stop.value)
              else match Tracks(Tagged(w.children, TRAK), |data|)
                case Err(e) => Err(e)
                case Ok(tracks) => Ok(Movie(Blank(MoovFields) - {"tracks"}, tracks))
  {
    var w := WalkOf(data, Reading(MoovFields, Collected));
    WalkLoaded(data, Reading(MoovFields, Collected));
    MoovTraks(data);
    MoovUndecoded();
    FillIdle(MoovFields, Collected, w.children, |data|, Blank(MoovFields));
  }

  /** `moov` decodes when its walk ends cleanly and every `trak` child
      decodes: none of its other fields has a decoder. */
  lemma MoovOutcome(data: seq<Byte>)
    ensures forall c | c in Tagged(WalkOf(data, Reading(MoovFields, Collected)).children, TRAK) ::
              c.payload.Some?
    ensures var w := WalkOf(data, Reading(MoovFields, Collected));
            var ts := Tagged(w.children, TRAK);
            UnpackMoov(data).Ok? <==>
              w.stop.None? && forall i | 0 <= i < |ts| :: UnpackNode("trak", ts[i].payload.value).Ok?
  {
    var w := WalkOf(data, Reading(MoovFields, Collected));
    MoovParts(data);
    TracksSpec(Tagged(w.children, TRAK), |data|);
  }

  /** A decoded `moov` holds None in every field other than `tracks`. */
  lemma MoovFieldsNone(data: seq<Byte>)
    requires UnpackMoov(data).Ok?
    ensures UnpackMoov(data).value.Movie?
    ensures UnpackMoov(data).value.fields.Keys == {"pfrl", "mvhd", "clip", "udta"}
    ensures forall k | k in UnpackMoov(data).value.fields :: UnpackMoov(data).value.fields[k] == None
  {
    MoovParts(data);
    assert (Blank(MoovFields) - {"tracks"}).Keys == {"pfrl", "mvhd", "clip", "udta"};
  }

  /** The tracks of a decoded `moov` are its `trak` children decoded in
      order. */
  lemma MoovTracks(data: seq<Byte>)
    requires UnpackMoov(data).Ok?
    ensures forall c | c in Tagged(WalkOf(data, Reading(MoovFields, Collected)).children, TRAK) ::
              c.payload.Some? && |c.payload.value| < |data|
    ensures UnpackMoov(data).value.Movie?
    ensures var ts := Tagged(WalkOf(data, Reading(MoovFields, Collected)).children, TRAK);
            var tracks := UnpackMoov(data).value.tracks;
            |tracks| == |ts| && forall i | 0 <= i < |ts| :: UnpackNode("trak", ts[i].payload.value) == Ok(tracks[i])
  {
    MoovParts(data);
    TracksSpec(Tagged(WalkOf(data, Reading(MoovFields, Collected)).children, TRAK), |data|);
  }

  /** The references of `dinf` are its `dref` children decoded in order. */
  lemma {:induction false} DrefsSpec(cs: seq<Child>)
    requires forall i | 0 <= i < |cs| :: cs[i].payload.Some?
    ensures Drefs(cs).Ok? <==> forall i | 0 <= i < |cs| :: UnpackDref(cs[i].payload.value).Ok?
    ensures Drefs(cs).Ok? ==>
              |Drefs(cs).value| == |cs| &&
              forall i | 0 <= i < |cs| :: UnpackDref(cs[i].payload.value) == Ok(Drefs(cs).value[i])
    decreases |cs|
  {
    if cs != [] {
      DrefsSpec(cs[1..]);
      assert forall i | 1 <= i < |cs| :: cs[i] == cs[1..][i - 1];
      if Drefs(cs).Ok? {
        var rest := Drefs(cs[1..]).value;
        assert Drefs(cs).value == [UnpackDref(cs[0].payload.value).value] + rest;
      }
    }
  }

  /** The `dref` children of a `dinf`, each read in full. */
  lemma DinfDrefs(data: seq<Byte>)
    ensures var ts := Tagged(DinfWalk(data).children, DREF);
            forall i | 0 <= i < |ts| :: ts[i].payload.Some?
  {
    DinfLoaded(data);
    var ts := Tagged(DinfWalk(data).children, DREF);
    forall i | 0 <= i < |ts|
      ensures ts[i].payload.Some?
    {
      assert ts[i] in ts;
    }
  }

  /** `dinf` as its walk and its references make it. */
  lemma DinfParts(data: seq<Byte>)
    ensures var ts := Tagged(DinfWalk(data).children, DREF);
            forall i | 0 <= i < |ts| :: ts[i].payload.Some?
    ensures var w := DinfWalk(data);
            var rs := Drefs(Tagged(w.children, DREF));
            UnpackDinf(data) ==
              if rs.Err? then Err(rs.error)
              else if w.stop.Some? then Err(w.stop.value)
              else Ok(DataInfo(rs.value))
  {
    DinfDrefs(data);
  }

  /** `dinf` decodes when its walk ends cleanly and every `dref` child
      decodes. */
  lemma DinfOutcome(data: seq<Byte>)
    ensures var ts := Tagged(DinfWalk(data).children, DREF);
            forall i | 0 <= i < |ts| :: ts[i].payload.Some?
    ensures var ts := Tagged(DinfWalk(data).children, DREF);
            UnpackDinf(data).Ok? <==>
              DinfWalk(data).stop.None? && forall i | 0 <= i < |ts| :: UnpackDref(ts[i].payload.value).Ok?
  {
    DinfParts(data);
    DrefsSpec(Tagged(DinfWalk(data).children, DREF));
  }

  /** The references of a decoded `dinf` are its `dref` children decoded
      in order. */
  lemma DinfRefs(data: seq<Byte>)
    requires UnpackDinf(data).Ok?
    ensures var ts := Tagged(DinfWalk(data).children, DREF);
            forall i | 0 <= i < |ts| :: ts[i].payload.Some?
    ensures UnpackDinf(data).value.DataInfo?
    ensures var ts := Tagged(DinfWalk(data).children, DREF);
            var refs := UnpackDinf(data).value.drefs;
            |refs| == |ts| && forall i | 0 <= i < |ts| :: UnpackDref(ts[i].payload.value) == Ok(refs[i])
  {
    DinfParts(data);
    DrefsSpec(Tagged(DinfWalk(data).children, DREF));
  }
}
