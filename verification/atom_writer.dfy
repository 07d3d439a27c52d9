/** The write-only atom writer (`MovAtomW` in movio.py).

    A writer writes its header into the file object it was given, which is
    either the output file or the writer of the enclosing atom; every write
    passes outward through all open writers, and each one refuses data that
    would exceed its declared size. A `Sink` is the output bytes together
    with the stack of open writers, innermost last. */
module AtomWriter {
  import opened Wrappers
  import opened Bytes

  /** An open writer: declared size, tag and bytes written so far (header included). */
  datatype Frame = Frame(size: nat, tag: Tag, written: nat)

  datatype Sink = Sink(frames: seq<Frame>, out: seq<Byte>)

  /** The output file with no writer open on it. */
  function FileSink(out: seq<Byte>): Sink
  {
    Sink([], out)
  }

  /** Every open writer has room for `n` more bytes. */
  predicate Room(frames: seq<Frame>, n: nat)
  {
    frames == [] ||
    var f := frames[|frames| - 1];
    f.written + n <= f.size && Room(frames[..|frames| - 1], n)
  }

  /** The open writers after each has accepted `n` more bytes. */
  function Advance(frames: seq<Frame>, n: nat): (r: seq<Frame>)
    ensures |r| == |frames|
  {
    if frames == [] then []
    else
      var f := frames[|frames| - 1];
      Advance(frames[..|frames| - 1], n) + [f.(written := f.written + n)]
  }

  /** `write(data)`: the innermost writer checks its room first, then hands
      the bytes to the next one out, and so on down to the file. */
  function PassThrough(k: Sink, data: seq<Byte>): (r: Result<Sink>)
    decreases |k.frames|
  {
    if k.frames == [] then Ok(Sink([], k.out + data))
    else
      var f := k.frames[|k.frames| - 1];
      if f.written + |data| > f.size then Err(FormatError)
      else
        var outer :- PassThrough(Sink(k.frames[..|k.frames| - 1], k.out), data);
        Ok(Sink(outer.frames + [f.(written := f.written + |data|)], outer.out))
  }

  /** The effect of a write on the whole stack at once: it is refused when any
      open writer lacks room, and otherwise every writer counts the bytes and
      the file receives them. */
  function Write(k: Sink, data: seq<Byte>): (r: Result<Sink>)
  {
    if Room(k.frames, |data|) then Ok(Sink(Advance(k.frames, |data|), k.out + data))
    else Err(FormatError)
  }

  /** Passing a write through the writers one by one has the effect of `Write`. */
  lemma {:induction false} PassThroughIsWrite(k: Sink, data: seq<Byte>)
    ensures PassThrough(k, data) == Write(k, data)
    decreases |k.frames|
  {
    if k.frames != [] {
      PassThroughIsWrite(Sink(k.frames[..|k.frames| - 1], k.out), data);
    }
  }

  /** `MovAtomW(fp, size, tag)` as the program runs it: a declared size below
      8 is refused, a size that does not fit the u32 header fails in
      `struct.pack`, the size and then the tag go through the enclosing
      writers, and the new writer is pushed with 8 bytes written. */
  function OpenByWrites(k: Sink, size: nat, tag: Tag): (r: Result<Sink>)
  {
    if size < 8 then Err(FormatError)
    else if size >= U32_LIMIT then Err(StructError)
    else
      var k1 :- PassThrough(k, U32(size));
      var k2 :- PassThrough(k1, tag);
      Ok(Sink(k2.frames + [Frame(size, tag, 8)], k2.out))
  }

  /** The effect of opening a writer on the whole stack. */
  function Open(k: Sink, size: nat, tag: Tag): (r: Result<Sink>)
  {
    if size < 8 then Err(FormatError)
    else if size >= U32_LIMIT then Err(StructError)
    else if !Room(k.frames, 8) then Err(FormatError)
    else Ok(Sink(Advance(k.frames, 8) + [Frame(size, tag, 8)], k.out + U32(size) + tag))
  }

  /** Opening a writer by two pass-through writes has the effect of `Open`:
      it fails with the size errors first, then when some enclosing writer
      lacks room for the 8-byte header. */
  lemma OpenByWritesIsOpen(k: Sink, size: nat, tag: Tag)
    ensures OpenByWrites(k, size, tag) == Open(k, size, tag)
  {
    if 8 <= size < U32_LIMIT {
      PassThroughIsWrite(k, U32(size));
      AdvanceTwice(k.frames, 4, 4);
      if Room(k.frames, 4) {
        PassThroughIsWrite(Sink(Advance(k.frames, 4), k.out + U32(size)), tag);
      }
      assert k.out + U32(size) + tag == k.out + (U32(size) + tag);
    }
  }

  lemma {:induction false} AdvanceTwice(frames: seq<Frame>, m: nat, n: nat)
    ensures Advance(Advance(frames, m), n) == Advance(frames, m + n)
    ensures Room(frames, m + n) <==> Room(frames, m) && Room(Advance(frames, m), n)
    decreases |frames|
  {
    if frames != [] {
      var p := frames[..|frames| - 1];
      AdvanceTwice(p, m, n);
      var a := Advance(frames, m);
      assert a[..|a| - 1] == Advance(p, m);
    }
  }

  /** Room after accepting `m` bytes is room for `m` more in the first place. */
  lemma {:induction false} RoomAdvance(frames: seq<Frame>, m: nat, n: nat)
    ensures Room(Advance(frames, m), n) <==> Room(frames, m + n)
    decreases |frames|
  {
    if frames != [] {
      var a := Advance(frames, m);
      assert a[..|a| - 1] == Advance(frames[..|frames| - 1], m);
      RoomAdvance(frames[..|frames| - 1], m, n);
    }
  }

  lemma AdvanceZero(frames: seq<Frame>)
    ensures Advance(frames, 0) == frames
    decreases |frames|
  {
    if frames != [] {
      AdvanceZero(frames[..|frames| - 1]);
    }
  }

  /** A writer just opened with a declared size has room for the rest of it
      exactly when the enclosing writers have room for the whole atom. */
  lemma {:induction false} RoomAfterOpen(frames: seq<Frame>, size: nat, tag: Tag, m: nat)
    requires size == m + 8
    ensures Room(Advance(frames, 8) + [Frame(size, tag, 8)], m) <==> Room(frames, size)
    ensures Advance(Advance(frames, 8) + [Frame(size, tag, 8)], m) == Advance(frames, size) + [Frame(size, tag, size)]
  {
    var fs := Advance(frames, 8) + [Frame(size, tag, 8)];
    assert fs[..|fs| - 1] == Advance(frames, 8);
    AdvanceTwice(frames, 8, m);
    RoomAdvance(frames, 8, m);
  }

  /** `finalize`: the innermost writer must have received exactly its
      declared size; it is then closed. */
  function Finalize(k: Sink): (r: Result<Sink>)
    requires k.frames != []
    ensures r.Ok? <==> k.frames[|k.frames| - 1].written == k.frames[|k.frames| - 1].size
    ensures r.Ok? ==> r.value == Sink(k.frames[..|k.frames| - 1], k.out)
    ensures r.Err? ==> r.error == FormatError
  {
    var f := k.frames[|k.frames| - 1];
    if f.written != f.size then Err(FormatError)
    else Ok(Sink(k.frames[..|k.frames| - 1], k.out))
  }

  /** Leaving the `with` block: the writer is finalized only when the body
      raised nothing; an exception from the body propagates unchanged. */
  function Exit(body: Result<Sink>): (r: Result<Sink>)
    requires body.Ok? ==> body.value.frames != []
    ensures body.Err? ==> r == body
    ensures body.Ok? ==> r == Finalize(body.value)
  {
    match body
    case Err(e) => Err(e)
    case Ok(k) => Finalize(k)
  }

  /** The size discipline of a writer: opening it with a declared size and
      writing `data` in one piece succeeds exactly when header and data
      together are the declared size and every enclosing writer has room for
      them; the output then grows by the header and the data. */
  lemma DeclaredSizeEnforced(k: Sink, size: nat, tag: Tag, data: seq<Byte>)
    requires Open(k, size, tag).Ok?
    ensures var r := Exit(Write(Open(k, size, tag).value, data));
            && (r.Ok? <==> |data| + 8 == size && Room(k.frames, size))
            && (r.Ok? ==> r.value == Sink(Advance(k.frames, size), k.out + U32(size) + tag + data))
  {
    var k1 := Open(k, size, tag).value;
    var w := Write(k1, data);
    if |data| + 8 == size {
      RoomAfterOpen(k.frames, size, tag, size - 8);
      if w.Ok? {
        AssocOut(k.out, U32(size), tag, data);
      }
    } else if w.Ok? {
      AdvanceLast(k1.frames, |data|);
    }
  }

  /** The innermost writer after accepting `n` bytes. */
  lemma AdvanceLast(frames: seq<Frame>, n: nat)
    requires frames != []
    ensures Advance(frames, n)[|frames| - 1].written == frames[|frames| - 1].written + n
    ensures Advance(frames, n)[|frames| - 1].size == frames[|frames| - 1].size
  {
  }

  lemma AssocOut(out: seq<Byte>, h: seq<Byte>, t: seq<Byte>, d: seq<Byte>)
    ensures out + h + t + d == out + (h + t) + d
  {
  }
}
