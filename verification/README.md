# movrepair in Dafny

A model of `movrepair`, a tool that repairs a QuickTime (`.mov`) file whose
`mdat` atom header was left broken by an interrupted recording. It takes a
good reference file made by the same device and copies the reference's atoms
to the output. In place of the reference's `mdat` it puts everything after
the broken file's `mdat` header. It can also rescale the reference's `moov`
metadata to the size of the recovered `mdat`: durations, and the chunk-offset
and sample-size tables.

The model follows the program's five files, one Dafny module per concern:

- `Wrappers` (wrappers.dfy): `Result`, `Option`, and one `Error` constructor
  per Python exception the program raises.
- `Bytes` (bytes.dfy): big-endian u32 packing, four-byte tags, and Python's
  clamped slicing and slice assignment. It also holds `Stream`, a byte string
  with a position, which stands for `io.BytesIO` and for the files.
- `AtomReader` (atom_reader.dfy): `MovAtomR`. It covers `make_root`,
  `read_header`, `read_data`, `iter_data`, `skip` and `iter_atoms`. The
  generator `iter_atoms` is a walk that returns the children it yielded and
  the error, if any, that stopped it.
- `AtomWriter` (atom_writer.dfy): `MovAtomW` as a stack of open writers
  over an output byte string. It covers opening a writer, `write`,
  `finalize` and the `with` exit.
- `AtomTree` (atom_tree.dfy): `MovAtomD` as an immutable tree. It covers
  `to_atomd`, `calculate_size`, `write`, `split`, `find_atoms` and `edit`.
  The program mutates atoms in place through shared references; here an edit
  returns the whole tree with the atom at a position changed (`Patch`).
- `RecordCodec` (record_codec.dfy): the `Struct`/`Field`/`ListField`/
  `StringField` codec of movutils.py and the `SubAtomsField` of movatoms.py.
  Layouts are data (`Layout`, `Field`), getters and counts are closed
  datatypes, and records are lists of `Value`s.
- `Catalog` (catalog.dfy): the atom layouts of movatoms.py and their sizes and
  round trips.
- `TableRepair` (table_repair.dfy): `calc_item_delta`,
  `guess_sequence_repitition_length` and the table-extension loop.
- `Metadata` (metadata.dfy): `fix_metadata`.
- `Repair` (repair_file.dfy): `repair_file`.
- `LegacyAtoms` (legacy.dfy): the standalone decoders of movfile.py.

The scale factor `mdat.size / float(reference mdat size)` is a rational
`Scale(num, den)`. `int(scale_factor * x)` is `ScaleFloor`, the floor of
`num * x / den`.

## Model

| member | source | states |
|---|---|---|
| Bytes.ReadU32OfU32 | movio.py:289 | packing a value below 2^32 as a big-endian u32 and reading it back gives the value |
| Bytes.U32OfReadU32 | movio.py:83 | reading any four bytes as a u32 and packing the result gives the same four bytes |
| Bytes.ReadU32IsBigEndian | movio.py:83 | the u32 read of four bytes is their unsigned big-endian value |
| Bytes.BigEndianOfToBigEndian | movutils.py:146 | encoding a value in `width` big-endian bytes and decoding gives the value back |
| Bytes.ToBigEndianOfBigEndian | movutils.py:128 | decoding any byte string as big-endian and encoding it at its width gives the bytes back |
| Bytes.Slice | movrepair.py:81 | `s[lo:hi]` clamps both ends to the length: never longer than `s`, and exactly `s[lo..hi]` when the bounds are in range |
| Bytes.SliceAssign | movrepair.py:92 | `buf[lo:hi] = v` with in-range bounds is `buf[..lo] + v + buf[hi..]`; with `|v| == hi - lo` the length and the bytes outside the range are kept |
| AtomReader.MakeRoot | movio.py:45-61 | the root reader is marked root, has nothing read, and its size is the length of the whole file |
| AtomReader.ReadHeader | movio.py:69-85 | reading a header succeeds exactly for a non-root reader with nothing read and 8 bytes available (`RuntimeError` and the EOF `MovFileError` otherwise); it then advances the file by 8 and records the big-endian size, the tag, the begin offset and 8 bytes read |
| AtomReader.ReadDataSpec | movio.py:87-111 | `read_data` fails on the root; once headed, it returns the next bytes of the file, at most the payload left and `length`, and exactly that many unless incomplete reads are allowed; it succeeds without `allow_incomplete` exactly when the file holds them; the counter and the file both advance by the bytes returned |
| AtomReader.ChunksPartition | movio.py:113-117 | cutting a payload into chunks gives non-empty pieces of at most `chunk` bytes that join back to the payload |
| AtomReader.IterDataChunks | movio.py:113-117 | with the header read and the whole payload in the file, `iter_data(chunk)` yields the rest of the payload cut into chunks, leaves the reader at its declared size and the file just past the payload |
| AtomReader.IterDataShort | movio.py:106-110 | with the header read and the file ending before the payload does, `iter_data` fails with the EOF `MovFileError` |
| AtomReader.IterDataStep | movio.py:113-117 | one step of `iter_data`: an empty read ends it, and any other read is the first chunk of the rest |
| AtomReader.SkipRest | movio.py:119-132 | `skip` reads the header when needed and succeeds exactly when the reader has not read past its size; the reader then has consumed exactly its size and the file has moved past the unread rest |
| AtomReader.NextChildDescribes | movio.py:142-147 | a child read by one step of `iter_atoms` is the atom whose header is at the current position, and the file moves just past it |
| AtomReader.ChildStepIsNextChild | movio.py:142-147 | `read_header`, then `read_data()` when wanted, then `skip` on a fresh child reader compose to the closed-form step, errors included |
| AtomReader.ChildStepOutcome | movio.py:143-146 | a child step fails with `MovFileError` on a truncated header and with `AssertionError` on a declared size below 8; otherwise it fails only when a wanted payload runs past the end of the file |
| AtomReader.ChildLoopCons | movio.py:142-147 | the loop that reads a child is that child followed by the loop from just past it |
| AtomReader.ChildLoopDescribes | movio.py:142-147 | the children of a walk lie back to back in the file from the starting position, each with its header's size and tag, and each carries its payload exactly when its tag is wanted |
| AtomReader.ChildLoopAdvancesStream | movio.py:142-147 | the file advances by exactly the sum of the children's sizes |
| AtomReader.ChildLoopAdvancesParent | movio.py:147 | the parent's count of bytes read advances by exactly the sum of the children's sizes |
| AtomReader.ChildLoopStops | movio.py:142-150 | children are read only while the parent has room; a walk that ends without error has consumed at least the parent's size, exactly that size for a non-root parent |
| AtomReader.NonRootWalkConsumesExactly | movio.py:140-150 | for a non-root atom, a walk that ends cleanly has children whose sizes sum to the declared size less the 8-byte header |
| AtomReader.OverrunIsFormatError | movio.py:148-150 | a child that runs past its non-root parent's declared size makes the walk stop with the "sub-atoms exceed parent" `MovFileError` |
| AtomWriter.PassThroughIsWrite | movio.py:310-314 | a write passed from the innermost writer outwards fails when any open writer lacks room and otherwise counts the bytes in every writer and appends them to the file |
| AtomWriter.OpenByWritesIsOpen | movio.py:282-297 | opening a writer is refused for a size below 8, fails in `struct.pack` for a size of 2^32 or more, and otherwise writes the size and the tag through the enclosing writers and pushes a writer with 8 bytes written |
| AtomWriter.RoomAdvance | movio.py:311 | every writer has room for `n` bytes after accepting `m` exactly when it had room for `m + n` |
| AtomWriter.RoomAfterOpen | movio.py:282-297 | a writer just opened with size `m + 8` has room for `m` more bytes exactly when the enclosing writers had room for the whole atom |
| AtomWriter.Finalize | movio.py:316-319 | `finalize` succeeds exactly when the innermost writer received its declared size; the writer is then closed and the output unchanged, and otherwise it is a `MovFileError` |
| AtomWriter.Exit | movio.py:302-304 | leaving the `with` block finalizes only when the body raised nothing, and the body's error propagates unchanged |
| AtomWriter.DeclaredSizeEnforced | movio.py:282-319 | opening a writer, writing `data` and leaving the block succeeds exactly when `data` plus the header is the declared size and every enclosing writer has room; the output then grows by the size, the tag and `data` |
| AtomTree.ToAtomD | movio.py:152-165 | `to_atomd` fails with `ValueError` on the root and `RuntimeError` past the header; on success the leaf has the header's tag and exactly the next `size - 8` bytes of the file as payload, and the file moves past them |
| AtomTree.DataOf | movio.py:194-195 | an atom has `data` exactly when it is a leaf (a split atom gives `TypeError`), and its size is that data's length plus 8 |
| AtomTree.WriteAtomSerializes | movio.py:253-270 | `write` succeeds exactly when the calculated size fits the u32 header and every enclosing writer has room; the output then grows by exactly the atom's serialization (size, tag, then payload or sub-atoms) |
| AtomTree.Split | movio.py:209-220 | splitting an atom that is already split is a `ValueError`, and a successful split keeps the tag and makes a node |
| AtomTree.SplitOfSerialized | movio.py:209-220 | splitting a leaf whose payload is the serialization of some atoms gives those atoms, one level deep, with their tags and payloads in order |
| AtomTree.SplitKeepsBytes | movio.py:209-220 | a successful split keeps the atom's size and serialization: the children cover the payload exactly |
| AtomTree.FindAmongShape | movio.py:243-249 | a search changes no sub-atom before its start, keeps every tag, leaves sub-atoms with another tag untouched, and changes nothing at the last level |
| AtomTree.FindInSound | movio.py:232-251 | every position `find_atoms` returns leads along the tag path in the returned tree |
| AtomTree.FindInComplete | movio.py:232-251 | every position that leads along the tag path in the returned tree is among those returned |
| AtomTree.FindInOrdered | movio.py:243-249 | the positions are returned in document order, without repetition |
| AtomTree.FindInKeepsBytes | movio.py:232-251 | a search splits atoms but keeps the size and serialization of the atom searched |
| AtomTree.ApplyEdit | movio.py:197-207 | `edit()` on a split atom is a `RuntimeError`, assigning `data` to a split atom changes nothing written, and an edit of a leaf keeps the tag and gives a leaf |
| AtomTree.PatchAt | movio.py:197-207 | editing the atom at a position gives the same outcome as editing that atom on its own, error included |
| AtomTree.PatchElsewhere | movrepair.py:92 | editing one atom leaves every other atom of the same depth as it was |
| AtomTree.PatchKeepsFollows | movrepair.py:94-109 | editing keeps the tags along every path, so positions found before an edit still lead along the same path after it |
| AtomTree.FollowsAt | movio.py:245-247 | a position that leads along a path holds an atom with the path's last tag |
| RecordCodec.PackCodesRoundTrip | movutils.py:136-149 | `struct.pack` succeeds exactly when the values match the format's items in number and range, and unpacking the result gives the values back |
| RecordCodec.UnpackCodesFit | movutils.py:122-134 | the values unpacked from any bytes are in range for their items |
| RecordCodec.DecodeCodes | movutils.py:122-134 | a `struct` field with too few bytes is an `UnpackError`; otherwise it consumes exactly the format's size, and a one-item format gives a single value |
| RecordCodec.DeclarePlainSpec | movutils.py:80-91 | a declaration strips a trailing `?` and marks the field hidden, and it is accepted exactly when a getter is given for a named hidden field and for no other |
| RecordCodec.VisibleIndex | movutils.py:222-224 | the index of a name among the visible fields, when a visible field has it |
| RecordCodec.Declared | movutils.py:225-226 | `_fields_map_[name]` is the last field declared with that name |
| RecordCodec.GetAttr | movutils.py:255-260 | a visible attribute reads its value, a hidden field reads what its getter derives, and anything else is an `AttributeError` |
| RecordCodec.GetAttrAt | movutils.py:255-260 | with distinct visible names, the `k`-th visible name reads the `k`-th value |
| RecordCodec.GetAttrDerived | movutils.py:255-260 | a hidden field with a getter reads as what the getter derives from the record |
| RecordCodec.GetAttrLenPlus | movatoms.py:149 | a hidden count derived from the length of a list reads as that length plus the getter's offset |
| RecordCodec.GetAttrLenPlusErr | movatoms.py:149 | such a hidden count fails when the field it measures has no length |
| RecordCodec.SetAttrSpec | movutils.py:262-267 | assignment to a hidden or undeclared name is an `AttributeError`; otherwise the named attribute takes the value and every other attribute keeps its own |
| RecordCodec.BindSpec | movutils.py:239-243 | binding positional arguments fails exactly when one of them names a field already bound, and otherwise binds each visible name in turn |
| RecordCodec.ConstructSpec | movutils.py:235-248 | with distinct names, construction succeeds exactly when there are at most as many positional arguments as visible fields, none is also given by keyword, and every visible field gets a value; the record then holds those values in field order |
| RecordCodec.LookupIndex | movatoms.py:41-46 | the registry as a dictionary: a tag maps to the last entry registered for it |
| RecordCodec.ReverseIndex | movatoms.py:47 | the reverse table maps a record kind to the tag of the last entry registered for it |
| RecordCodec.Registered | movatoms.py:54-56 | the children a sub-atoms field decodes are exactly those whose tag is registered, in the order met, each carrying its payload |
| RecordCodec.DecodeChildrenSpec | movatoms.py:54-65 | decoding the children decodes exactly the registered ones, in stream order, each with its registered layout and its declared size as the atom size; unregistered siblings are skipped and the first error among the registered ones is the error |
| RecordCodec.DecodeSubAtomsSpec | movatoms.py:52-65 | `SubAtomsField.unpack_from_stream` succeeds exactly when the iteration over the atoms met no error and every registered child decodes; the items are then the registered children's records in order and the stream is where the iteration left it; a stopped iteration is an error |
| RecordCodec.EncodeSubAtomsFails | movatoms.py:67-75 | packing a sub-atoms field succeeds only for an empty list: the writer it opens for each record is refused or never receives its data (`write_data` does not exist) |
| RecordCodec.RecordRoundTrip | movutils.py:321-347 | a record whose values round-trip packs, and unpacking its bytes, wherever they sit in the input, gives the record back and stops right after them |
| RecordCodec.FinalInit | movutils.py:325-330 | after unpacking a packed record every visible field is bound to its value |
| RecordCodec.TripInit | movutils.py:325-329 | unpacking what packing wrote binds every visible name to its attribute's value and leaves the other names bound before alone |
| RecordCodec.DecodeItemsCount | movutils.py:165-175 | a list field decodes exactly as many items as its count says |
| RecordCodec.DecodeStr | movutils.py:191-202 | a string field reads exactly the length it asks for; a negative length or too few bytes is an `UnpackError` |
| RecordCodec.PaddingZeros | movutils.py:141-146 | an unnamed padding field packs `None` as no values and writes zero bytes |
| RecordCodec.FixedEncodeSize | movutils.py:218-233 | a record whose `_struct_size_` is fixed packs to exactly that many bytes |
| RecordCodec.FixedDecode | movutils.py:218-233 | a record of fixed size unpacks exactly when that many bytes remain and then consumes exactly them; with fewer it is an `UnpackError` |
| RecordCodec.InitGrows | movutils.py:325-329 | unpacking more fields never unbinds a name |
| RecordCodec.DecodeFieldsAppend | movutils.py:325-329 | unpacking two runs of fields unpacks the first, then the second from where the first stopped; an error in the first is the error |
| Catalog.HeaderSizes | movatoms.py:91-142 | the struct sizes of the header atoms: `tkhd` 84 bytes, `mdhd` 24, `mvhd` 96 and `vmhd` 12 |
| Catalog.TkhdSize | movatoms.py:91-108 | the `tkhd` layout has a struct size of 84 |
| Catalog.MvhdSize | movatoms.py:124-142 | the `mvhd` layout has a struct size of 96 |
| Catalog.MdhdSize | movatoms.py:111-121 | the `mdhd` layout has a struct size of 24 |
| Catalog.VmhdSize | movatoms.py:244-250 | the `vmhd` layout has a struct size of 12 |
| Catalog.TkhdFixed | movatoms.py:91-108 | a `tkhd` packs to 84 bytes, and unpacks exactly when 84 bytes remain, consuming them; with fewer it is an `UnpackError` |
| Catalog.MdhdFixed | movatoms.py:111-121 | an `mdhd` packs to 24 bytes and unpacks exactly when 24 remain |
| Catalog.MvhdFixed | movatoms.py:124-142 | an `mvhd` packs to 96 bytes and unpacks exactly when 96 remain |
| Catalog.VmhdFixed | movatoms.py:244-250 | a `vmhd` packs to 12 bytes and unpacks exactly when 12 remain |
| Catalog.HdlrCompName | movatoms.py:78-88 | unpacking an `hdlr` in an atom of declared size `n` succeeds exactly when `n >= 32` and the stream holds `n - 8` bytes (otherwise `UnpackError`); it then consumes them, and `comp_name` is the `n - 32` bytes after the 24 fixed ones |
| Catalog.CountedListAttrs | movatoms.py:145-151 | a table atom's attributes: its version, flags and list, and the hidden count, which is the list's length |
| Catalog.CountedListTrips | movatoms.py:145-151 | a table atom's values round-trip exactly when version and flags are in byte range, the list has fewer than 2^32 items and each item round-trips |
| Catalog.StszAttrs | movatoms.py:182-189 | an `stsz` record's count attribute is the table length when the uniform size is 0, and 0 otherwise |
| Catalog.StszTrips | movatoms.py:182-189 | an `stsz` record round-trips exactly when its values are in range and, with a non-zero uniform size, its table is empty |
| Catalog.SampleDescriptionSize | movatoms.py:156 | a sample description's hidden size reads as its data length plus 16 |
| Catalog.SampleDescriptionTrips | movatoms.py:154-161 | a sample description round-trips exactly when its format and reference index are in range and its size, data length plus 16, fits a u32 |
| Catalog.DataReferenceTrips | movatoms.py:217-226 | a data reference with size getter `len(data) + plus` round-trips exactly when `plus` is 12 and its tag, version, flags and data are of the right shape |
| Catalog.DataReferenceEncodes | movatoms.py:217-226 | a data reference packs to 12 bytes more than its data, and its first four bytes read back as the data length plus the getter's offset |
| Catalog.DataReferenceReads | movatoms.py:222-225 | unpacking a data reference reads its size, its tag, version and flags, and then the size less 12 bytes as data, whatever its getter adds |
| Catalog.DataReferenceShortSize | movatoms.py:225 | a data reference that declares a size below 12 is an `UnpackError` |
| Catalog.DataReferenceShortGetter | movatoms.py:221-225 | with a getter adding `12 - k`, unpacking the packed bytes gives back tag, version and flags but only the data less its last `k` bytes, and stops `k` bytes short |
| Catalog.DataReferenceAsDeclaredShortens | movatoms.py:221-225 | with the getter as declared (`+ 8`), a data reference with at least 4 data bytes unpacks from its own packing with its last 4 data bytes missing, stopping 4 bytes short |
| Catalog.DataReferenceAsDeclaredFails | movatoms.py:221-225 | with the getter as declared, a data reference with fewer than 4 data bytes packs to bytes whose unpacking is an `UnpackError` |
| Catalog.DataReferenceCorrectedTrips | movatoms.py:221-225 | with the getter adding 12, a data reference unpacks from its own packing back to itself and consumes all of it |
| Catalog.SelfReferenceShape | movatoms.py:217-226 | the self reference (no data) is a data reference of valid shape with empty data, so the as-declared getter fails on it |
| TableRepair.DeltasAt | movrepair.py:44-48 | `calc_item_delta` has one entry fewer than the table (none for an empty one), and entry `i` is `s[i + 1] - s[i]` |
| TableRepair.AccumulateDeltas | movrepair.py:44-48 | a non-empty table is rebuilt from its first entry by running sums of its differences |
| TableRepair.DeltasAccumulate | movrepair.py:44-48 | the differences of running sums are the summands |
| TableRepair.GuessPeriodSpec | movrepair.py:34-41 | the guess is 1 exactly when no length `x` with `2 <= x < len // 2` has `seq[0:x] == seq[x:2x]`; otherwise it is the smallest such `x` |
| TableRepair.GuessPeriodExamples | movrepair.py:34-41 | `[1, 2, 1, 2, 1, 2]` repeats with length 2, and for `[1, 2, 1, 2]` the search range is empty so the guess is 1 |
| TableRepair.ExtensionIndexInRange | movrepair.py:146-148 | the index `offset + (i % repn)` with `offset = len(deltas) % repn` is always inside the differences |
| TableRepair.ScaleFloor | movrepair.py:143 | `int(scale_factor * x)` is the floor: `r * den <= num * x < (r + 1) * den` |
| TableRepair.GrowSpec | movrepair.py:147-149 | the loop keeps the existing entries and adds one per iteration, each the last entry plus the picked difference |
| TableRepair.Extend | movrepair.py:143-149 | a table of more than one entry grows to `max(count, len)` entries and keeps its existing ones |
| TableRepair.ExtendStep | movrepair.py:147-149 | every added entry is the one before plus the difference `deltas[offset + (i % repn)]` |
| TableRepair.ExtendKeepsPeriod | movrepair.py:143-149 | when the differences repeat with the guessed period, the extended table's differences keep repeating with it |
| Metadata.FindFirst | movrepair.py:88 | `find_atoms(...)[0]` fails with the search's error, with `IndexError` when nothing is found, and otherwise is the first position found |
| Metadata.EditEachSpec | movrepair.py:94-109 | a pass over the atoms a search found gives each of them the edit chosen from its bytes before the pass, and leaves every other atom of the same depth as it was |
| Metadata.EditEachSucceeds | movrepair.py:94-109 | a pass fails exactly when one of the atoms found is missing or its edit cannot be made; no earlier edit of the pass changes that |
| Metadata.NewDuration | movrepair.py:80-87 | `get_new_duration` fails with `TypeError` on a split atom, `struct.error` under 20 bytes and `ZeroDivisionError` for time scale 0; otherwise it is the duration at 16..20 scaled and rounded down |
| Metadata.PackU32 | movrepair.py:90 | `struct.pack('>I', v)` succeeds exactly for `v < 2^32` (else `struct.error`) and gives four bytes that read back as `v` |
| Metadata.ElstPayloadReads | movrepair.py:104-105 | the new `elst` payload is 20 bytes holding the flag word, 1, the duration, 0 and the rate |
| Metadata.ElstEdit | movrepair.py:102-105 | an `elst` edit can be made exactly for a leaf of at least 20 bytes, and overwrites the payload with one entry of the new duration, keeping the flag word and the rate |
| Metadata.ElstEdited | movrepair.py:97-105 | after its edit an `elst` is 20 bytes with the old first word, count 1, the new duration, media time 0 and the old rate |
| Metadata.MdhdEdited | movrepair.py:106-109 | an `mdhd` edit can be made exactly when its duration can be scaled and fits a u32; the atom keeps its length and every byte but 16..20, which holds its own duration scaled and rounded down |
| Metadata.TkhdEdited | movrepair.py:94-96 | a `tkhd` of at least 24 bytes gets the movie's new duration at 20..24 and keeps its length and every other byte |
| Metadata.Ints | movrepair.py:144 | a table's entries can be subtracted exactly when all are numbers, and then they are those numbers in order |
| Metadata.RepackReadsBack | movrepair.py:150 | storing a record that round-trips into a leaf makes it unpack to that record, and changes no other atom of its depth |
| Metadata.SttsStepRepacks | movrepair.py:126-136 | the format is never the `tmcd` literal, so the `stts` atom is always packed again, and unpacks afterwards to the record it held: the rescaled counts are discarded |
| Metadata.ExtendedSpec | movrepair.py:141-149 | a table of at most one entry is left alone; otherwise the record's table becomes the extension of its numbers and every other attribute keeps its value |
| Metadata.ExtendTableStepSpec | movrepair.py:139-151 | the chunk offset step leaves the tree alone for at most one entry; otherwise the atom unpacks afterwards to the extended record and no other atom of its depth changes |
| Metadata.StszAsWrittenAborts | movrepair.py:156-161 | the sample size step as written raises `IndexError` for every table of two or more numeric entries |
| Metadata.StszStepExtends | movrepair.py:153-167 | for a table of two or more entries the sample size step as written fails while the corrected step succeeds and leaves the `stsz` atom decoding to the extended table |
| Metadata.SampleDescriptionFormat | movatoms.py:154-161 | a decoded sample description's `data_format` is a number |
| Metadata.StsdDescriptions | movatoms.py:164-170 | a decoded `stsd` lists descriptions whose formats are all numbers |
| Metadata.FormatNeverTimecode | movrepair.py:117-129 | the format read from an `stsd` is a number, never the bytes `tmcd`: the test at line 121 never holds and the one at line 129 always does |
| Metadata.FixStblAsWrittenDiffers | movrepair.py:114-167 | the `stbl` step as written and the corrected one agree up to the `stsz` table; with at most one entry both return the tree; with more numeric entries the one as written raises `IndexError`, and the corrected one stores the extended table |
| Metadata.FixMvhdSpec | movrepair.py:88-93 | the `mvhd` step succeeds when the first `mvhd` has a non-zero time scale and a scaled duration below 2^32; that atom then holds the scaled duration at 16..20 and every other byte as before, and no other atom of its depth changes |
| Metadata.PatchDuration | movrepair.py:92 | writing a u32 into four bytes of a leaf puts it there, keeps every other byte and changes no other atom of that depth |
| Metadata.FindDisjoint | movio.py:232-251 | the positions a search returns are distinct, of the path's length, and each leads along the path |
| Metadata.TkhdPassSpec | movrepair.py:94-96 | each `tkhd` found gets the movie's new duration at 20..24 (same length and other bytes when it has them), and every other atom of that depth is unchanged |
| Metadata.ElstPassSpec | movrepair.py:97-105 | each `elst` found is rewritten to one entry of the new duration, and every other atom of that depth is unchanged |
| Metadata.MdhdPassSpec | movrepair.py:106-109 | each `mdhd` found has its own duration scaled and rounded down at 16..20, all other bytes kept, and every other atom of that depth is unchanged |
| Metadata.FixHeadersSpec | movrepair.py:88-109 | the header passes succeed only after the `mvhd` step does and its new duration is below 2^32; the `tkhd`, `elst` and `mdhd` passes each edit exactly the atoms their search found along `trak/...`, as the pass specs say, and leave every other atom of that depth as it was |
| Metadata.FixStblsSpec | movrepair.py:114-167 | the loop over a `minf`'s `stbl` atoms replaces each found one by its fix from its contents before the loop and leaves every other atom of that depth unchanged |
| Metadata.FixMinfsSpec | movrepair.py:112-167 | the loop over the `minf` atoms replaces each found one by its fix from its contents before the loop and leaves every other atom of that depth unchanged |
| Metadata.FixMinfSpec | movrepair.py:113-114 | fixing a `minf` searches for `vmhd` (result unused) and then fixes exactly the `stbl` atoms found, leaving its other children unchanged |
| Metadata.FixMetadataSpec | movrepair.py:60-167 | `fix_metadata` succeeds only after the header passes do, and then every `minf` found along `trak/mdia/minf` is fixed and every other atom of that depth kept |
| Repair.IndexOfDistinct | movrepair.py:184 | in a table with distinct keys, each key is found where it sits |
| Repair.PutSelf | movrepair.py:202 | after `table[t] = v` the key `t` holds `v`, at its old place or last |
| Repair.PutOther | movrepair.py:202 | after `table[t] = v` every other key keeps its place and its value |
| Repair.MoveToEndSpec | movrepair.py:199-200 | `table[t] = table.pop(t)` moves the key to the end with its value, and the other keys keep their values and order |
| Repair.AbsorbKeyed | movrepair.py:186-202 | storing one child of the reference keeps the table's keys distinct and matching their atoms' tags, and puts the child under its tag |
| Repair.AbsorbOthers | movrepair.py:186-202 | storing one child changes no value under another key |
| Repair.AbsorbOrder | movrepair.py:186-202 | storing one child keeps the order of the keys other than `moov` and the child's |
| Repair.AbsorbMovesMoov | movrepair.py:199-200 | a child that is not an `mdat` leaves `moov` behind every key but its own |
| Repair.CollectGet | movrepair.py:184-202 | after the loop the table is well keyed and each tag holds what was stored for the last top-level atom with that tag |
| Repair.CollectOrder | movrepair.py:184-202 | keys other than `moov` come out in the order of their first atom in the reference |
| Repair.CollectMoovBehind | movrepair.py:196-200 | `moov` ends up behind `mdat` exactly when some atom other than an `mdat` follows an `mdat` in the reference |
| Repair.ReadReferenceSpec | movrepair.py:184-202 | the reference's top-level atoms lie back to back from offset 0, and the table holds, for each tag, what was stored for the last of them |
| Repair.EntryOfDescribed | movrepair.py:193-202 | a stored atom other than `mdat` is a leaf with the payload found in the reference, and an `mdat` keeps its declared size |
| Repair.ScanMdatHeader | movrepair.py:206-209 | the `mdat` the scan of the broken file finds has a complete header within the file |
| Repair.ScanMdatWalk | movrepair.py:206-212 | the scan finds the first `mdat` among the broken file's top-level atoms, and also one at the place where the walk stopped early |
| Repair.FixOutcome | movrepair.py:221-225 | fixing fails exactly when the table lacks an `mdat` or a `moov`, when the reference `mdat`'s size is 0 or when `fix_metadata` fails |
| Repair.FixSpec | movrepair.py:221-225 | the fixed table has the same keys in the same places, the fixed `moov` under its key and every other value unchanged |
| Repair.WriteChunksConcat | movrepair.py:231-232 | writing chunk after chunk has the effect of writing them joined in one piece |
| Repair.WriteMdatSpec | movrepair.py:216-232 | with the size the program computes (file length minus the `mdat`'s offset), the copy is exactly the rest of the broken file under a header declaring that size, and fails only when a writer lacks room or the size does not fit a u32 |
| Repair.WriteEntryOutcome | movrepair.py:228-234 | one value written fails exactly when it cannot be written and otherwise appends its bytes |
| Repair.WriteEntriesOk | movrepair.py:228-234 | the output loop succeeds exactly when every value can be written |
| Repair.WriteEntriesSpec | movrepair.py:228-234 | a successful output loop appends exactly the values' bytes in table order, with the broken `mdat` in place of the reference's |
| Repair.RepairFileEarlyExits | movrepair.py:204-212 | a broken file without a top-level `mdat` gives exit code 1 and no output, and a failure reading either file is the repair's failure |
| Repair.OutputSpec | movrepair.py:227-235 | writing a table succeeds exactly when every value can be written, with exit code 0 and the values' bytes as the whole output |
| Repair.FinishSpec | movrepair.py:221-235 | once the `mdat` is found, the repair fails exactly when fixing the table fails or a value cannot be written; otherwise the output is the prepared table written in order |
| Repair.RepairFileOutput | movrepair.py:172-235 | when the broken file has an `mdat`, the output is the reference table (fixed when asked) written in order with the broken file's `mdat` in place of the reference's |
| LegacyAtoms.StructRoundTrip | movfile.py:183-187 | `struct.pack` succeeds exactly for values that fit the format, and unpacking its output gives the values back |
| LegacyAtoms.StructRepack | movfile.py:176-181 | without pad bytes, packing what was unpacked restores the bytes |
| LegacyAtoms.CutsOutcome | movfile.py:178-180 | the count-driven slices can all be cut to full width exactly when the data reaches past the last one |
| LegacyAtoms.PackPiecesSpec | movfile.py:185-186 | packing entries one by one succeeds exactly when each fits the format, and piece `k` is entry `k` packed |
| LegacyAtoms.TableHeader | movfile.py:176 | a table's header is its version-and-flags word and its entry count |
| LegacyAtoms.TableOutcome | movfile.py:176-181 | a table decodes exactly when the data holds the header and all the entries its count announces; entry `i` is the bytes at `8 + i*w` |
| LegacyAtoms.TableRoundTrip | movfile.py:172-187 | packing a table and unpacking the result gives the table back |
| LegacyAtoms.TableRepack | movfile.py:172-187 | unpacking then packing restores the bytes up to the last entry |
| LegacyAtoms.TablePackOutcome | movfile.py:183-187 | packing fails exactly when the version, the count or an entry value is not a u32, or an entry has the wrong number of fields |
| LegacyAtoms.SttsRoundTrip | movfile.py:172-187 | `stts` packs exactly when version, count and every pair are u32 values, and unpacking the packed bytes gives the table back |
| LegacyAtoms.StscRoundTrip | movfile.py:221-236 | the same for `stsc` with triples |
| LegacyAtoms.StcoRoundTrip | movfile.py:239-254 | the same for `stco` with single offsets |
| LegacyAtoms.SttsRepack | movfile.py:172-187 | unpacking then packing `stts` restores the bytes up to the last entry |
| LegacyAtoms.StscRepack | movfile.py:221-236 | unpacking then packing `stsc` restores the bytes up to the last entry |
| LegacyAtoms.StcoRepack | movfile.py:239-254 | unpacking then packing `stco` restores the bytes up to the last entry |
| LegacyAtoms.CountDriven | movfile.py:172-254 | `stts`, `stss`, `stsc` and `stco` decode exactly when the data holds the 8-byte header and the announced entries of 8, 4, 12 or 4 bytes |
| LegacyAtoms.SttsEntry | movfile.py:178-180 | `stts` entry `i` is the pair of u32 values at `8 + 8i` |
| LegacyAtoms.StcoEntry | movfile.py:245-247 | `stco` entry `i` is the u32 at `8 + 4i` |
| LegacyAtoms.StssEntry | movfile.py:196-198 | `stss` entry `i` is the u32 at `8 + 4i` |
| LegacyAtoms.StszPackOutcome | movfile.py:214-218 | `stsz` packs exactly when every value is a u32 |
| LegacyAtoms.StszRoundTrip | movfile.py:202-218 | packed `stsz` bytes decode to the same record exactly when the uniform size is 0 or the table is empty |
| LegacyAtoms.MdhdSpec | movfile.py:83-87 | an `mdhd` decodes exactly from 24 bytes, into seven values that pack back to those bytes |
| LegacyAtoms.MdhdOfPacked | movfile.py:83-87 | packed `mdhd` fields decode to themselves |
| LegacyAtoms.HdlrSpec | movfile.py:93-99 | an `hdlr` decodes exactly from at least 24 bytes; the name is everything after them and the six fields pack back to the first 24 |
| LegacyAtoms.HdlrOfPacked | movfile.py:93-99 | packed `hdlr` fields followed by a name decode to both |
| LegacyAtoms.TkhdSpec | movfile.py:65-73 | a `tkhd` decodes exactly from 84 bytes; any other length makes one of the three unpacks see the wrong number of bytes |
| LegacyAtoms.TkhdOfPacked | movfile.py:65-73 | packed `tkhd` parts laid end to end decode to themselves |
| LegacyAtoms.DrefEntryIsStruct | movfile.py:132 | reading an entry's size and version directly agrees with `struct.unpack('>I4xI', ...)` |
| LegacyAtoms.DrefVersionIsLastEntry | movfile.py:126-136 | a decoded `dref` has as many entries as announced, and its version is the header's only when there are none: the loop's `vf` replaces it with the last entry's |
| LegacyAtoms.DrefRoundTrip | movfile.py:126-136 | well-formed entries laid after a header decode to themselves, with the header's version when there are none and the last entry's otherwise |
| LegacyAtoms.DescHeadIsStruct | movfile.py:164-165 | reading a description's size and index directly agrees with the two `struct.unpack` calls |
| LegacyAtoms.DescStep | movfile.py:163-168 | one laid-out description is read back with its size, format and index, and as data its own data followed by up to 16 bytes of what follows |
| LegacyAtoms.StsdAsWritten | movfile.py:159-169 | laid-out descriptions decode, as the decoder is written, to descriptions whose data has taken in the next one's 16-byte header |
| LegacyAtoms.AsReadSingle | movfile.py:159-169 | a description alone is read back as it was |
| LegacyAtoms.AsciiIgnore | movfile.py:32 | `decode('ascii', 'ignore')` keeps the bytes below 128 as characters, in order, and drops the others |
| LegacyAtoms.AsciiIgnoreFull | movfile.py:32 | a tag whose name keeps all four letters is plain ASCII, spelled by that name |
| LegacyAtoms.FillKeys | movfile.py:29-39 | filling the fields never adds or removes a field |
| LegacyAtoms.FillLast | movfile.py:31-39 | a field a decoder fills holds the decoded payload of the last child of that name, and every other field keeps its value |
| LegacyAtoms.FillOutcome | movfile.py:31-39 | filling succeeds exactly when every child that sets a field decodes |
| LegacyAtoms.NodeOutcome | movfile.py:28-43 | a container decodes when its walk ends cleanly and every child that sets a field decodes; a clean fill with a broken walk reports the walk's error |
| LegacyAtoms.NodeKeys | movfile.py:28-43 | a decoded container is a record of its kind with exactly its declared fields |
| LegacyAtoms.NodeField | movfile.py:28-43 | each field of a decoded container holds the decoded payload of the last child of that name when a decoder exists for it, and None otherwise |
| LegacyAtoms.TracksSpec | movfile.py:50-54 | the tracks are the `trak` children decoded one by one, in order |
| LegacyAtoms.MoovOutcome | movfile.py:46-55 | `moov` decodes when its walk ends cleanly and every `trak` child decodes |
| LegacyAtoms.MoovFieldsNone | movfile.py:46-55 | a decoded `moov` holds None in every field other than `tracks` |
| LegacyAtoms.MoovTracks | movfile.py:46-55 | the tracks of a decoded `moov` are its `trak` children decoded in order |
| LegacyAtoms.DrefsSpec | movfile.py:113-118 | the references of a `dinf` are its `dref` children decoded in order |
| LegacyAtoms.DinfOutcome | movfile.py:109-119 | `dinf` decodes when its walk ends cleanly and every `dref` child decodes |
| LegacyAtoms.DinfRefs | movfile.py:109-119 | the references of a decoded `dinf` are its `dref` children decoded in order |

## Left out

- File I/O: files are byte strings and the output is a byte string that starts empty. `get_file_size_via_seek` is the length of that string.
- `print` and all logging are dropped. The only log line with an effect, the one at movrepair.py:160-161 that raises, is modelled (see Findings).
- `main`, argument parsing, `--dump-moov`, `sizeof_fmt` and `pretty_print`, `asdict` and `__repr__` are not modelled: they only format output.
- TableRepair.ScaleFloor: the float `scale_factor` and `int()` are a rational scale and a floor. Python's binary rounding of the float product is not modelled, so the model can differ from the program by one when the exact product is an integer the float misses.
- AtomTree.ToAtomD: `MovAtomD.parent` (movio.py:186, set by `split` at movio.py:216-220) is dropped. It is read only by the `tmcd` branch of movrepair.py:121-124, which never runs (`Metadata.FormatNeverTimecode`).
- Repair.WriteMdatSpec: the broken `mdat` is copied as one byte string and not in 1024-byte chunks. `Repair.WriteChunksConcat` shows that chunked writes have the same effect.
- Metadata.FixStbl: it uses the corrected sample size step, so `Metadata.FixMetadata`, `Repair.Fix` and `Repair.RepairFile` return a repaired file where the program raises `IndexError` for any `stsz` table of two or more entries. The step as written is `Metadata.FixStblAsWritten`. `Metadata.FixStblAsWrittenDiffers` states where the two differ (see Findings).
- Metadata.FixMetadataSpec: it describes the `minf` loop one `minf` at a time (`Metadata.FixMinfSpec`, `Metadata.FixStblsSpec`). The contents of a fixed `stbl` are stated step by step (`Metadata.SttsStepRepacks`, `Metadata.ExtendTableStepSpec`, `Metadata.FixStblAsWrittenDiffers`), not as one closed formula for the whole tree.
- Catalog.Dref: the `dref` table keeps the data reference as declared (`+ 8`), as the program does. `Catalog.DrefCorrected` is the corrected companion, used by nothing else (see Findings).
- RecordCodec.EncodeSubAtomsFails: packing a non-empty sub-atoms field always ends in an error in the program, because it calls a `write_data` method that `MovAtomW` lacks. So records holding sub-atoms (`stbl`, `minf`, `mdia`, `trak`, `moov`, `dinf`) have no round trip.
- The `tmcd` track removal (movrepair.py:121-124) is not modelled beyond the proof that its test never holds.
- Python's `Field.__eq__`, `Struct.__eq__` and metaclass plumbing (movutils.py:28-47, 98-111, 269-278) are replaced by Dafny's structural equality on values and layouts.
- `struct.Struct` format parsing is replaced by the closed code set `B`, `H`, `I` and pad bytes, the only codes the layouts use.

## Findings

| source | as written | input that shows it | evidently intended | confidence | as-written member | corrected member |
|---|---|---|---|---|---|---|
| movrepair.py:160-161 | the sample-size log line has three `{}` placeholders but `.format` gets two arguments, so it raises `IndexError` | any `stsz` atom whose table has two or more entries, e.g. sizes `[10, 20]` | log the table size, then extend the sample size table as the chunk offsets are extended | high (not executed) | Metadata.StszAsWrittenAborts | Metadata.StszStepExtends |
| movatoms.py:221 | the `data_reference` size getter adds 8, but the decoder at line 225 subtracts 12 (size, tag, version and flags) | any data reference: with 4 or more data bytes the packed record unpacks with its last 4 data bytes missing; the self reference with no data unpacks to an `UnpackError` | the getter adds 12, so that a data reference packs and unpacks to itself | high (not executed) | Catalog.DataReferenceAsDeclaredShortens | Catalog.DataReferenceCorrectedTrips |
