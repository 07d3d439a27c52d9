/** The streaming atom reader (`MovAtomR` in movio.py).

    An atom is a big-endian u32 size (counting the 8 header bytes), a 4-byte
    tag and `size - 8` payload bytes. A reader keeps its own bookkeeping
    (declared size, tag, bytes consumed) while the file position is shared by
    every reader over the same file; here the file is a `Stream` value that
    each operation takes and returns. */
module AtomReader {
  import opened Wrappers
  import opened Bytes

  /** The state of one reader. `begin` is the file position of its header. */
  datatype Reader = Reader(isRoot: bool, size: nat, tag: Option<Tag>, bytesRead: nat, begin: nat)

  /** `MovAtomR(fp)`: a reader for the atom at the current position, header not read yet. */
  const Fresh: Reader := Reader(false, 0, None, 0, 0)

  /** `MovAtomR.make_root(fp)`: the whole file as a pseudo atom whose size is
      the length of the file, measured by seeking to its end. */
  function MakeRoot(s: Stream): (r: Reader)
    ensures r.isRoot && r.size == |s.data| && r.bytesRead == 0
  {
    Reader(true, |s.data|, None, 0, 0)
  }

  /** `read_header`: consumes exactly 8 bytes; the size is the big-endian u32
      of the first four, the tag the next four. */
  function ReadHeader(r: Reader, s: Stream): (res: Result<(Reader, Stream)>)
    ensures r.isRoot || r.bytesRead != 0 ==> res == Err(RuntimeError)
    ensures !r.isRoot && r.bytesRead == 0 && s.Available() < 8 ==> res == Err(FormatError)
    ensures res.Ok? <==> !r.isRoot && r.bytesRead == 0 && s.Available() >= 8
    ensures res.Ok? ==>
              var (r', s') := res.value;
              && s' == s.Skip(8)
              && r'.bytesRead == 8 && r'.begin == s.pos && !r'.isRoot
              && r'.size == ReadU32(s.data[s.pos..s.pos + 4])
              && r'.tag == Some(s.data[s.pos + 4..s.pos + 8])
  {
    if r.isRoot then Err(RuntimeError)
    else if r.bytesRead != 0 then Err(RuntimeError)
    else
      var (header, s') := s.Read(8);
      if |header| != 8 then Err(FormatError)
      else
        assert header == s.data[s.pos..s.pos + 8];
        assert header[..4] == s.data[s.pos..s.pos + 4];
        Ok((r.(size := ReadU32(header[..4]), tag := Some(header[4..]), bytesRead := 8, begin := s.pos), s'))
  }

  /** The header is read first when nothing has been consumed yet. */
  function Headed(r: Reader, s: Stream): Result<(Reader, Stream)>
  {
    if r.bytesRead == 0 then ReadHeader(r, s) else Ok((r, s))
  }

  /** How many bytes `read_data(length)` asks the file for. */
  function Wanted(r: Reader, length: Option<nat>): nat
    requires r.bytesRead <= r.size
  {
    var n := r.size - r.bytesRead;
    if length.Some? && length.value < n then length.value else n
  }

  /** `read_data(length, allow_incomplete)`: at most the rest of the declared
      payload, also capped by `length`. A short read fails unless incomplete
      reads are allowed. */
  function ReadData(r: Reader, s: Stream, length: Option<nat>, allowIncomplete: bool)
    : (res: Result<(seq<Byte>, Reader, Stream)>)
  {
    if r.isRoot then Err(RuntimeError)
    else
      var (r1, s1) :- Headed(r, s);
      if r1.bytesRead > r1.size then Err(AssertionError)
      else
        var n := Wanted(r1, length);
        var (d, s2) := s1.Read(n);
        var r2 := r1.(bytesRead := r1.bytesRead + |d|);
        if |d| != n && !allowIncomplete then Err(FormatError)
        else Ok((d, r2, s2))
  }

  /** What `read_data` returns: after the header, the next bytes of the
      file, no more than the declared payload left and `length` allow, and
      exactly that many unless incomplete reads are allowed. */
  lemma ReadDataSpec(r: Reader, s: Stream, length: Option<nat>, allowIncomplete: bool)
    ensures r.isRoot ==> ReadData(r, s, length, allowIncomplete) == Err(RuntimeError)
    ensures ReadData(r, s, length, allowIncomplete).Ok? ==> Headed(r, s).Ok? && !r.isRoot
    ensures ReadData(r, s, length, allowIncomplete).Ok? && Headed(r, s).Ok? ==>
              var (r1, s1) := Headed(r, s).value;
              var (d, r', s') := ReadData(r, s, length, allowIncomplete).value;
              && r1.bytesRead <= r1.size
              && |d| <= Wanted(r1, length)
              && |d| <= s1.Available()
              && (!allowIncomplete ==> |d| == Wanted(r1, length))
              && r' == r1.(bytesRead := r1.bytesRead + |d|)
              && r'.bytesRead <= r'.size
              && s' == s1.Skip(|d|)
              && (s1.pos <= |s1.data| ==> d == s1.data[s1.pos..s1.pos + |d|])
    ensures Headed(r, s).Ok? && !r.isRoot && !allowIncomplete ==>
              var (r1, s1) := Headed(r, s).value;
              ReadData(r, s, length, allowIncomplete).Ok? <==> r1.bytesRead <= r1.size && Wanted(r1, length) <= s1.Available()
  {
    if !r.isRoot && Headed(r, s).Ok? {
      var (r1, s1) := Headed(r, s).value;
      if r1.bytesRead <= r1.size {
        var n := Wanted(r1, length);
        var (d, s2) := s1.Read(n);
        assert ReadData(r, s, length, allowIncomplete) ==
                 if |d| != n && !allowIncomplete then Err(FormatError)
                 else Ok((d, r1.(bytesRead := r1.bytesRead + |d|), s2));
      }
    }
  }

  /** The progress measure of `iter_data`: unread declared bytes, with a
      header still to read counting as one more step. */
  function Unread(r: Reader): nat
  {
    if r.bytesRead <= r.size then r.size - r.bytesRead else 0
  }

  /** `iter_data(chunksize)`: repeated `read_data(chunksize)` until a read
      returns nothing. */
  function IterData(r: Reader, s: Stream, chunk: nat, allowIncomplete: bool)
    : (res: Result<(seq<seq<Byte>>, Reader, Stream)>)
    decreases (if r.bytesRead == 0 then 1 else 0), Unread(r)
  {
    ReadDataSpec(r, s, Some(chunk), allowIncomplete);
    var (d, r1, s1) :- ReadData(r, s, Some(chunk), allowIncomplete);
    if d == [] then Ok(([], r1, s1))
    else
      var (rest, r2, s2) :- IterData(r1, s1, chunk, allowIncomplete);
      Ok(([d] + rest, r2, s2))
  }

  /** A byte string cut into consecutive pieces of `chunk` bytes, the last
      one possibly shorter. */
  function Chunks(p: seq<Byte>, chunk: nat): seq<seq<Byte>>
    requires chunk > 0
    decreases |p|
  {
    if p == [] then []
    else
      var n := if chunk < |p| then chunk else |p|;
      [p[..n]] + Chunks(p[n..], chunk)
  }

  /** The pieces are non-empty, at most `chunk` long, and joined give back
      the byte string. */
  lemma {:induction false} ChunksPartition(p: seq<Byte>, chunk: nat)
    requires chunk > 0
    ensures Concat(Chunks(p, chunk)) == p
    ensures forall k :: 0 <= k < |Chunks(p, chunk)| ==> 0 < |Chunks(p, chunk)[k]| <= chunk
    decreases |p|
  {
    if p != [] {
      var n := if chunk < |p| then chunk else |p|;
      ChunksPartition(p[n..], chunk);
      ConcatCons(p[..n], Chunks(p[n..], chunk));
      assert p[..n] + p[n..] == p;
    }
  }

  /** What `iter_data(chunk)` returns once the header is read and the whole
      rest of the payload is in the file: that rest cut into chunks, the
      reader at its declared size and the file just past the payload. */
  function ChunkedRest(r: Reader, s: Stream, chunk: nat): (seq<seq<Byte>>, Reader, Stream)
    requires r.bytesRead <= r.size && chunk > 0 && s.pos + (r.size - r.bytesRead) <= |s.data|
  {
    var unread := r.size - r.bytesRead;
    (Chunks(s.data[s.pos..s.pos + unread], chunk), r.(bytesRead := r.size), Stream(s.data, s.pos + unread))
  }

  /** `iter_data` returns `ChunkedRest` whenever the header has been read and
      the file holds the rest of the payload. */
  lemma {:induction false} IterDataChunks(r: Reader, s: Stream, chunk: nat)
    requires !r.isRoot && 0 < r.bytesRead <= r.size && chunk > 0
    requires s.pos + (r.size - r.bytesRead) <= |s.data|
    ensures IterData(r, s, chunk, false) == Ok(ChunkedRest(r, s, chunk))
    decreases r.size - r.bytesRead
  {
    var unread := r.size - r.bytesRead;
    var n := if chunk < unread then chunk else unread;
    var r1 := r.(bytesRead := r.bytesRead + n);
    var s1 := Stream(s.data, s.pos + n);
    ReadChunk(r, s, chunk);
    IterDataStep(r, s, chunk, s.data[s.pos..s.pos + n], r1, s1);
    if n > 0 {
      IterDataChunks(r1, s1, chunk);
      ChunkedRestStep(r, s, chunk);
    }
  }

  /** Taking the first chunk off the rest of the payload. */
  lemma ChunkedRestStep(r: Reader, s: Stream, chunk: nat)
    requires 0 < r.bytesRead < r.size && chunk > 0 && s.pos + (r.size - r.bytesRead) <= |s.data|
    ensures var unread := r.size - r.bytesRead;
            var n := if chunk < unread then chunk else unread;
            var next := ChunkedRest(r.(bytesRead := r.bytesRead + n), Stream(s.data, s.pos + n), chunk);
            ChunkedRest(r, s, chunk) == ([s.data[s.pos..s.pos + n]] + next.0, next.1, next.2)
  {
    var unread := r.size - r.bytesRead;
    var n := if chunk < unread then chunk else unread;
    var p := s.data[s.pos..s.pos + unread];
    SliceParts(s.data, s.pos, n, unread);
    ChunksStep(p, chunk, n);
  }

  /** Splitting the unread payload after its first chunk. */
  lemma SliceParts(data: seq<Byte>, at: nat, m: nat, n: nat)
    requires m <= n && at + n <= |data|
    ensures data[at..at + n][..m] == data[at..at + m]
    ensures data[at..at + n][m..] == data[at + m..at + m + (n - m)]
  {
  }

  lemma ChunksStep(p: seq<Byte>, chunk: nat, n: nat)
    requires chunk > 0 && p != [] && n == (if chunk < |p| then chunk else |p|)
    ensures Chunks(p, chunk) == [p[..n]] + Chunks(p[n..], chunk)
  {
  }

  /** With the header read, `iter_data` fails when the file ends before the
      declared payload does. */
  lemma {:induction false} IterDataShort(r: Reader, s: Stream, chunk: nat)
    requires !r.isRoot && 0 < r.bytesRead <= r.size && chunk > 0
    requires s.Available() < r.size - r.bytesRead
    ensures IterData(r, s, chunk, false) == Err(FormatError)
    decreases r.size - r.bytesRead
  {
    var res := ReadData(r, s, Some(chunk), false);
    ReadDataSpec(r, s, Some(chunk), false);
    if res.Ok? {
      var (d, r1, s1) := res.value;
      IterDataStep(r, s, chunk, d, r1, s1);
      IterDataShort(r1, s1, chunk);
    }
  }

  /** One chunk of `iter_data` after the header: the next bytes of the file,
      as many as the chunk size and the unread payload allow. */
  lemma ReadChunk(r: Reader, s: Stream, chunk: nat)
    requires !r.isRoot && 0 < r.bytesRead <= r.size && s.pos + (r.size - r.bytesRead) <= |s.data|
    ensures var n := if chunk < r.size - r.bytesRead then chunk else r.size - r.bytesRead;
            ReadData(r, s, Some(chunk), false) ==
              Ok((s.data[s.pos..s.pos + n], r.(bytesRead := r.bytesRead + n), Stream(s.data, s.pos + n)))
  {
  }

  /** One step of `iter_data`: an empty read ends it, any other read is the
      first chunk of the rest. */
  lemma IterDataStep(r: Reader, s: Stream, chunk: nat, d: seq<Byte>, r1: Reader, s1: Stream)
    requires ReadData(r, s, Some(chunk), false) == Ok((d, r1, s1))
    ensures d == [] ==> IterData(r, s, chunk, false) == Ok(([], r1, s1))
    ensures d != [] && IterData(r1, s1, chunk, false).Err? ==>
              IterData(r, s, chunk, false) == IterData(r1, s1, chunk, false)
    ensures d != [] && IterData(r1, s1, chunk, false).Ok? ==>
              IterData(r, s, chunk, false) ==
                Ok(([d] + IterData(r1, s1, chunk, false).value.0,
                    IterData(r1, s1, chunk, false).value.1, IterData(r1, s1, chunk, false).value.2))
  {
  }

  lemma ConcatCons(d: seq<Byte>, rest: seq<seq<Byte>>)
    ensures Concat([d] + rest) == d + Concat(rest)
  {
    assert ([d] + rest)[1..] == rest;
  }

  /** `skip`: moves past the unread rest of the payload; afterwards the
      reader has consumed exactly its declared size. */
  function SkipRest(r: Reader, s: Stream): (res: Result<(Reader, Stream)>)
    ensures res.Ok? ==> Headed(r, s).Ok?
    ensures res.Ok? && Headed(r, s).Ok? ==>
              var (r1, s1) := Headed(r, s).value;
              var (r', s') := res.value;
              && r1.bytesRead <= r1.size
              && r' == r1.(bytesRead := r1.size)
              && s' == s1.Skip(r1.size - r1.bytesRead)
    ensures Headed(r, s).Ok? ==>
              (res.Ok? <==> Headed(r, s).value.0.bytesRead <= Headed(r, s).value.0.size)
  {
    var (r1, s1) :- Headed(r, s);
    if r1.bytesRead > r1.size then Err(AssertionError)
    else
      var n := r1.size - r1.bytesRead;
      if n > 0 then Ok((r1.(bytesRead := r1.bytesRead + n), s1.Skip(n))) else Ok((r1, s1))
  }

  /** Which children the consumer of `iter_atoms` reads in full (with
      `read_data()` or `to_atomd()`): those whose tag is in a set, or those
      whose tag is not. The others are only skipped. */
  datatype Select = Only(tags: set<Tag>) | Except(tags: set<Tag>) {
    predicate Reads(tag: Tag)
    {
      if Only? then tag in tags else tag !in tags
    }
  }

  /** One child met by `iter_atoms`: where its header starts, its declared
      size and tag, and its payload when the consumer read it. */
  datatype Child = Child(begin: nat, size: nat, tag: Tag, payload: Option<seq<Byte>>)

  /** What iterating over children produced: the children yielded, the error
      that ended the iteration if any, and the final parent and file state. */
  datatype Walk = Walk(children: seq<Child>, stop: Option<Error>, parent: Reader, stream: Stream)

  /** The children `cs` lie back to back in `data` from offset `at`, each
      with a complete header that states its size and tag, and each carrying
      its payload, taken from `data`, exactly when `want` asks for its tag. */
  ghost predicate Describes(data: seq<Byte>, at: nat, cs: seq<Child>, want: Select)
    decreases |cs|
  {
    cs == [] ||
    var c := cs[0];
    && c.begin == at && at + 8 <= |data| && c.size >= 8
    && c.size == ReadU32(data[at..at + 4]) && c.tag == data[at + 4..at + 8]
    && (c.payload.Some? <==> want.Reads(c.tag))
    && (c.payload.Some? ==> at + c.size <= |data| && c.payload.value == data[at + 8..at + c.size])
    && Describes(data, at + c.size, cs[1..], want)
  }

  function SumSizes(cs: seq<Child>): nat
  {
    if cs == [] then 0 else cs[0].size + SumSizes(cs[1..])
  }

  lemma {:induction false} SumSizesAppend(cs: seq<Child>, c: Child)
    ensures SumSizes(cs + [c]) == SumSizes(cs) + c.size
  {
    if cs != [] {
      assert (cs + [c])[1..] == cs[1..] + [c];
      SumSizesAppend(cs[1..], c);
    }
  }

  lemma DescribesCons(data: seq<Byte>, at: nat, c: Child, rest: seq<Child>, want: Select)
    requires Describes(data, at, [c], want)
    requires Describes(data, at + c.size, rest, want)
    ensures Describes(data, at, [c] + rest, want)
  {
    assert ([c] + rest)[1..] == rest;
  }

  /** One iteration step of `iter_atoms` as its consumer sees it: the next
      child's header, its whole payload when `want` asks for it, and the file
      position just past the child. */
  function NextChild(s: Stream, want: Select): (res: Result<(Child, Stream)>)
    ensures res.Ok? ==> res.value.0.size >= 8 && res.value.1 == Stream(s.data, s.pos + res.value.0.size)
  {
    if s.Available() < 8 then Err(FormatError)
    else
      var size := ReadU32(s.data[s.pos..s.pos + 4]);
      var tag: Tag := s.data[s.pos + 4..s.pos + 8];
      if size < 8 then Err(AssertionError)
      else if want.Reads(tag) && s.pos + size > |s.data| then Err(FormatError)
      else
        var payload := if want.Reads(tag) then Some(s.data[s.pos + 8..s.pos + size]) else None;
        Ok((Child(s.pos, size, tag, payload), Stream(s.data, s.pos + size)))
  }

  /** A child read by the step is the atom at the current position, and the
      file moves just past it. */
  lemma NextChildDescribes(s: Stream, want: Select)
    requires NextChild(s, want).Ok?
    ensures var (c, s') := NextChild(s, want).value;
            && Describes(s.data, s.pos, [c], want)
            && s' == Stream(s.data, s.pos + c.size)
  {
  }

  /** The same step spelled with the reader operations: `read_header` on a
      fresh child reader, `read_data()` (as `to_atomd()` does) when the
      payload is wanted, then `skip`. */
  function ChildStep(s: Stream, want: Select): Result<(Child, Stream)>
  {
    var (c, s1) :- ReadHeader(Fresh, s);
    var tag := c.tag.value;
    var (payload, c2, s2) :-
      if want.Reads(tag) then
        var (d, c2, s2) :- ReadData(c, s1, None, false);
        Ok((Some(d), c2, s2))
      else Ok((None, c, s1));
    var (c3, s3) :- SkipRest(c2, s2);
    Ok((Child(c.begin, c3.size, tag, payload), s3))
  }

  /** The reader operations compose to exactly the closed-form step, errors
      included. */
  lemma ChildStepIsNextChild(s: Stream, want: Select)
    ensures ChildStep(s, want) == NextChild(s, want)
  {
    if s.Available() >= 8 {
      assert s.data[s.pos..s.pos + 8][..4] == s.data[s.pos..s.pos + 4];
    }
  }

  /** When a child step fails: a truncated header is a format error, a
      declared size below the header's 8 bytes trips the program's assertion,
      and otherwise only a wanted payload that runs past the end of the file
      fails. */
  lemma ChildStepOutcome(s: Stream, want: Select)
    ensures s.Available() < 8 ==> ChildStep(s, want) == Err(FormatError)
    ensures s.Available() >= 8 && ReadU32(s.data[s.pos..s.pos + 4]) < 8 ==>
              ChildStep(s, want) == Err(AssertionError)
    ensures s.Available() >= 8 && ReadU32(s.data[s.pos..s.pos + 4]) >= 8 ==>
              (ChildStep(s, want).Ok? <==>
                 (want.Reads(s.data[s.pos + 4..s.pos + 8]) ==> s.pos + ReadU32(s.data[s.pos..s.pos + 4]) <= |s.data|))
  {
    ChildStepIsNextChild(s, want);
  }

  /** The loop of `iter_atoms`: children are read while the parent has
      consumed less than its declared size; a non-root parent must end with
      exactly its declared size consumed. */
  function ChildLoop(r: Reader, s: Stream, want: Select): (w: Walk)
    decreases Unread(r)
  {
    if r.bytesRead < r.size then
      var step := NextChild(s, want);
      if step.Err? then Walk([], Some(step.error), r, s)
      else
        var (c, s1) := step.value;
        var w := ChildLoop(r.(bytesRead := r.bytesRead + c.size), s1, want);
        w.(children := [c] + w.children)
    else if !r.isRoot && r.bytesRead != r.size then Walk([], Some(FormatError), r, s)
    else Walk([], None, r, s)
  }

  /** One child read by the loop: the walk is that child followed by the
      walk from just past it. */
  lemma ChildLoopCons(r: Reader, s: Stream, want: Select, c: Child, s1: Stream)
    requires r.bytesRead < r.size && NextChild(s, want) == Ok((c, s1))
    ensures ChildLoop(r, s, want).children == [c] + ChildLoop(r.(bytesRead := r.bytesRead + c.size), s1, want).children
    ensures ChildLoop(r, s, want).stop == ChildLoop(r.(bytesRead := r.bytesRead + c.size), s1, want).stop
    ensures ChildLoop(r, s, want).parent == ChildLoop(r.(bytesRead := r.bytesRead + c.size), s1, want).parent
    ensures ChildLoop(r, s, want).stream == ChildLoop(r.(bytesRead := r.bytesRead + c.size), s1, want).stream
  {
  }

  /** The children of a walk are the consecutive atoms of the file from the
      starting position. */
  lemma {:induction false} ChildLoopDescribes(r: Reader, s: Stream, want: Select)
    ensures Describes(s.data, s.pos, ChildLoop(r, s, want).children, want)
    decreases Unread(r)
  {
    var step := NextChild(s, want);
    if r.bytesRead < r.size && step.Ok? {
      var c := step.value.0;
      var s1 := step.value.1;
      var r1 := r.(bytesRead := r.bytesRead + c.size);
      ChildLoopCons(r, s, want, c, s1);
      NextChildDescribes(s, want);
      ChildLoopDescribes(r1, s1, want);
      DescribesCons(s.data, s.pos, c, ChildLoop(r1, s1, want).children, want);
    }
  }

  /** The file advances by exactly the sizes of the children. */
  lemma {:induction false} ChildLoopAdvancesStream(r: Reader, s: Stream, want: Select)
    ensures ChildLoop(r, s, want).stream == Stream(s.data, s.pos + SumSizes(ChildLoop(r, s, want).children))
    decreases Unread(r)
  {
    var step := NextChild(s, want);
    if r.bytesRead < r.size && step.Ok? {
      var c := step.value.0;
      var s1 := step.value.1;
      var r1 := r.(bytesRead := r.bytesRead + c.size);
      ChildLoopCons(r, s, want, c, s1);
      ChildLoopAdvancesStream(r1, s1, want);
      SumSizesCons(c, ChildLoop(r1, s1, want).children);
    }
  }

  /** The parent's count advances by exactly the sizes of the children. */
  lemma {:induction false} ChildLoopAdvancesParent(r: Reader, s: Stream, want: Select)
    ensures ChildLoop(r, s, want).parent == r.(bytesRead := r.bytesRead + SumSizes(ChildLoop(r, s, want).children))
    decreases Unread(r)
  {
    var step := NextChild(s, want);
    if r.bytesRead < r.size && step.Ok? {
      var c := step.value.0;
      var s1 := step.value.1;
      var r1 := r.(bytesRead := r.bytesRead + c.size);
      ChildLoopCons(r, s, want, c, s1);
      ChildLoopAdvancesParent(r1, s1, want);
      SumSizesCons(c, ChildLoop(r1, s1, want).children);
    }
  }

  /** A walk reads children only while the parent has room, and a walk that
      stops without error has consumed at least the declared size, exactly
      that size for a non-root parent. */
  lemma {:induction false} ChildLoopStops(r: Reader, s: Stream, want: Select)
    ensures ChildLoop(r, s, want).stop.None? ==> ChildLoop(r, s, want).parent.bytesRead >= r.size
    ensures ChildLoop(r, s, want).stop.None? && !r.isRoot ==> ChildLoop(r, s, want).parent.bytesRead == r.size
    ensures ChildLoop(r, s, want).children != [] ==> r.bytesRead < r.size
    decreases Unread(r)
  {
    var step := NextChild(s, want);
    if r.bytesRead < r.size && step.Ok? {
      var c := step.value.0;
      var s1 := step.value.1;
      var r1 := r.(bytesRead := r.bytesRead + c.size);
      ChildLoopCons(r, s, want, c, s1);
      ChildLoopStops(r1, s1, want);
    }
  }

  lemma SumSizesCons(c: Child, rest: seq<Child>)
    ensures SumSizes([c] + rest) == c.size + SumSizes(rest)
  {
    assert ([c] + rest)[1..] == rest;
  }

  /** `iter_atoms`: reads the parent's own header first unless it is the root
      or has been read already, then walks the children. */
  function IterAtoms(r: Reader, s: Stream, want: Select): Walk
  {
    if !r.isRoot && r.bytesRead == 0 then
      match ReadHeader(r, s)
      case Err(e) => Walk([], Some(e), r, s)
      case Ok((r1, s1)) => ChildLoop(r1, s1, want)
    else ChildLoop(r, s, want)
  }

  /** For a non-root atom, a walk that ends without error has consumed
      exactly the declared size: the children's sizes add up to the payload. */
  lemma NonRootWalkConsumesExactly(r: Reader, s: Stream, want: Select)
    requires !r.isRoot && r.bytesRead == 0
    requires ReadHeader(r, s).Ok?
    ensures var w := IterAtoms(r, s, want);
            var (r1, _) := ReadHeader(r, s).value;
            w.stop.None? ==> SumSizes(w.children) + 8 == r1.size && w.parent.bytesRead == r1.size
  {
    var (r1, s1) := ReadHeader(r, s).value;
    ChildLoopAdvancesParent(r1, s1, want);
    ChildLoopStops(r1, s1, want);
  }

  /** The parent check of `iter_atoms` is what detects a child that runs past
      its parent: walking a header-only reader whose children overshoot the
      declared size ends in a format error. */
  lemma OverrunIsFormatError(r: Reader, s: Stream, want: Select)
    requires !r.isRoot && 8 <= r.bytesRead < r.size
    requires NextChild(s, want).Ok?
    requires r.bytesRead + NextChild(s, want).value.0.size > r.size
    ensures ChildLoop(r, s, want).stop == Some(FormatError)
  {
  }
}
