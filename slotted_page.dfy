/**
 * The slotted page: a fixed-size block whose 4-byte header holds two offsets
 * into a data buffer. An offset table grows upward from data[0]; records,
 * each a 16-bit length prefix followed by its payload, grow downward from
 * the end of the buffer.
 */
module SlottedPage {
  import opened Bytes

  /** The page size the model is instantiated at (page<128>). */
  const PageSize: nat := 128
  /** sizeof(intra_offset_t): a 16-bit offset, since PageSize <= 16384. */
  const OffsetWidth: nat := 2
  /** sizeof(header): two intra_offset_t fields. */
  const HeaderSize: nat := 2 * OffsetWidth
  /** Length of m_data. */
  const DataSize: nat := PageSize - HeaderSize
  /** The literal 2 that insert's size check adds for the length prefix. */
  const PrefixAllowance: nat := 2
  /** size_t arithmetic wraps modulo 2^64. */
  const SizeTModulus: nat := 0x1_0000_0000_0000_0000

  datatype PageError = BadAlloc | OutOfRange

  datatype Result<T> = Ok(value: T) | Err(error: PageError)

  /** m_header. The queries that the page derives from its header alone. */
  datatype Header = Header(freeRegionStart: U16, freeRegionEnd: U16) {

    /** size(): the number of whole offset-table entries between the header
        size and free_region_start (in size_t arithmetic). */
    function Size(): (n: nat)
      ensures HeaderSize <= freeRegionStart ==>
                HeaderSize + OffsetWidth * n <= freeRegionStart < HeaderSize + OffsetWidth * (n + 1)
    {
      ((freeRegionStart - HeaderSize) % SizeTModulus) / OffsetWidth
    }

    /** empty(): exactly when index 0 is not stored. */
    function Empty(): (r: bool)
      ensures r <==> !Contains(0)
    {
      Size() == 0
    }

    /** contains(i): index i has its entry inside the offset table. */
    function Contains(i: nat): (r: bool)
      ensures HeaderSize <= freeRegionStart ==> (r <==> HeaderSize + OffsetWidth * (i + 1) <= freeRegionStart)
    {
      i < Size()
    }

    /** free_space(): the distance between the two offsets (in size_t arithmetic). */
    function FreeSpace(): (n: nat)
      ensures freeRegionStart <= freeRegionEnd ==> freeRegionStart + n == freeRegionEnd
    {
      (freeRegionEnd - freeRegionStart) % SizeTModulus
    }

    /** fits(n): n more bytes fit between the two offsets. */
    function Fits(n: nat): (r: bool)
      ensures freeRegionStart <= freeRegionEnd ==> (r <==> freeRegionStart + n <= freeRegionEnd)
    {
      FreeSpace() >= n
    }
  }

  /** For a well-formed start offset, size() counts the table entries exactly. */
  lemma SizeCountsEntries(h: Header)
    requires HeaderSize <= h.freeRegionStart && (h.freeRegionStart - HeaderSize) % OffsetWidth == 0
    ensures HeaderSize + OffsetWidth * h.Size() == h.freeRegionStart
  {
  }

  /** Advancing the start offset by one entry keeps it well formed and adds one to size(). */
  lemma SizeAfterAppend(h: Header, end: U16)
    requires HeaderSize <= h.freeRegionStart && (h.freeRegionStart - HeaderSize) % OffsetWidth == 0
    requires h.freeRegionStart + OffsetWidth < 0x1_0000
    ensures var h' := Header(h.freeRegionStart + OffsetWidth, end);
            (h'.freeRegionStart - HeaderSize) % OffsetWidth == 0 && h'.Size() == h.Size() + 1
  {
    SizeCountsEntries(h);
  }

  /** The header a new page starts with. */
  const EmptyHeader := Header(HeaderSize, DataSize)

  /** The header clear() leaves behind: its end offset is the page size, not the buffer size. */
  const ClearedHeader := Header(HeaderSize, PageSize)

  /** After clear(), insert passes its size check exactly for records of up
      to 120 bytes, and every such record would end at PageSize, past the
      last byte of m_data; longer records get bad_alloc. */
  lemma ClearedInsertOverruns(s: seq<Byte>)
    ensures ClearedHeader.Fits(|s| + OffsetWidth + PrefixAllowance) <==> |s| <= 120
    ensures ClearedHeader.Fits(|s| + OffsetWidth + PrefixAllowance) ==>
              var start := ClearedHeader.freeRegionEnd - |s| - OffsetWidth;
              DataSize < start + OffsetWidth + |s|
  {
  }

  /** After clear(), no index is contained, so at(i) throws out_of_range for every i. */
  lemma ClearedHoldsNothing(i: nat)
    ensures ClearedHeader.Size() == 0 && !ClearedHeader.Contains(i)
  {
  }

  /** The header as it is written to a stream: start offset, then end offset. */
  function EncodeHeader(h: Header): (r: seq<Byte>)
    ensures |r| == HeaderSize && DecodeHeader(r) == h
  {
    var r := EncodeU16(h.freeRegionStart) + EncodeU16(h.freeRegionEnd);
    assert r[..2] == EncodeU16(h.freeRegionStart) && r[2..] == EncodeU16(h.freeRegionEnd);
    r
  }

  /** The header read back from its four stream bytes. */
  function DecodeHeader(b: seq<Byte>): (h: Header)
    requires |b| == HeaderSize
    ensures h.freeRegionStart == b[0] as int + 0x100 * b[1] as int
    ensures h.freeRegionEnd == b[2] as int + 0x100 * b[3] as int
  {
    Header(DecodeU16(b[..2]), DecodeU16(b[2..]))
  }

  /** Every four bytes are the encoding of the header they decode to. */
  lemma DecodeEncodeHeader(b: seq<Byte>)
    requires |b| == HeaderSize
    ensures EncodeHeader(DecodeHeader(b)) == b
  {
    EncodeDecodeU16(b[..2]);
    EncodeDecodeU16(b[2..]);
    assert b == b[..2] + b[2..];
  }

  // ---------------------------------------------------------------------
  // The layout of the data buffer
  // ---------------------------------------------------------------------

  /** Offset-table entry i: the word at data[2i], the offset of record i. */
  function Entry(buf: seq<Byte>, i: nat): U16
    requires OffsetWidth * (i + 1) <= |buf|
  {
    ReadU16(buf, OffsetWidth * i)
  }

  /** Entry i, its length prefix and its payload all lie inside buf. */
  predicate Resolvable(buf: seq<Byte>, i: nat)
  {
    && OffsetWidth * (i + 1) <= |buf|
    && Entry(buf, i) + OffsetWidth <= |buf|
    && Entry(buf, i) + OffsetWidth + ReadU16(buf, Entry(buf, i)) <= |buf|
  }

  /** The length prefix of record i. */
  function Length(buf: seq<Byte>, i: nat): U16
    requires Resolvable(buf, i)
  {
    ReadU16(buf, Entry(buf, i))
  }

  /** The payload of record i. */
  function Slot(buf: seq<Byte>, i: nat): seq<Byte>
    requires Resolvable(buf, i)
  {
    buf[Entry(buf, i) + OffsetWidth .. Entry(buf, i) + OffsetWidth + Length(buf, i)]
  }

  /** Where record i ends: the buffer end for the first record, and the start
      of record i - 1 for every later one. */
  function Top(buf: seq<Byte>, i: nat): int
    requires OffsetWidth * i <= |buf|
  {
    if i == 0 then |buf| else Entry(buf, i - 1)
  }

  /** The n records are packed downward from the end of buf in index order,
      each directly below its predecessor, and end is where the last one
      starts. */
  ghost predicate Packed(buf: seq<Byte>, n: nat, end: int)
  {
    && OffsetWidth * n <= |buf|
    && (forall j {:trigger Resolvable(buf, j)} {:trigger Length(buf, j)} :: 0 <= j < n ==> Resolvable(buf, j) && Entry(buf, j) + OffsetWidth + Length(buf, j) == Top(buf, j))
    && end == Top(buf, n)
  }

  /** The payloads of the first n records, in index order. */
  ghost function Slots(buf: seq<Byte>, n: nat): (rs: seq<seq<Byte>>)
    requires forall j :: 0 <= j < n ==> Resolvable(buf, j)
    ensures |rs| == n && forall j {:trigger rs[j]} :: 0 <= j < n ==> rs[j] == Slot(buf, j)
  {
    seq(n, j requires 0 <= j < n && Resolvable(buf, j) => Slot(buf, j))
  }

  /** Records lie below one another: the end of a later record is never above
      the end of an earlier one. */
  lemma {:induction false} TopDecreasing(buf: seq<Byte>, n: nat, end: int, j: nat, i: nat)
    requires Packed(buf, n, end)
    requires j <= i <= n
    ensures Top(buf, i) <= Top(buf, j) <= |buf|
    decreases i
  {
    if j < i {
      TopDecreasing(buf, n, end, j, i - 1);
      assert Resolvable(buf, i - 1);
    } else if 0 < j {
      assert Resolvable(buf, j - 1);
    }
  }

  /** Record j reads the same from two buffers that agree on its table entry,
      its length prefix and its payload. */
  lemma SlotFrame(a: seq<Byte>, b: seq<Byte>, j: nat)
    requires Resolvable(a, j) && |a| == |b|
    requires forall k :: 0 <= k < |a| && OffsetWidth * j <= k < OffsetWidth * (j + 1) ==> a[k] == b[k]
    requires forall k :: 0 <= k < |a| && Entry(a, j) <= k < Entry(a, j) + OffsetWidth + Length(a, j) ==> a[k] == b[k]
    ensures Resolvable(b, j) && Entry(b, j) == Entry(a, j) && Length(b, j) == Length(a, j) && Slot(b, j) == Slot(a, j)
  {
  }

  /** The bytes insert writes: the length prefix and payload just below end,
      then the offset of the new record into table entry n. */
  function PlaceRecord(buf: seq<Byte>, n: nat, end: nat, s: seq<Byte>): (r: seq<Byte>)
    requires end <= |buf| < 0x1_0000
    requires OffsetWidth * (n + 1) + OffsetWidth + |s| <= end
    ensures |r| == |buf|
    ensures ReadU16(r, OffsetWidth * n) == end - |s| - OffsetWidth
    ensures ReadU16(r, end - |s| - OffsetWidth) == |s|
  {
    var at := end - |s| - OffsetWidth;
    WriteU16(Splice(WriteU16(buf, at, |s|), at + OffsetWidth, s), OffsetWidth * n, at)
  }

  /** Placing a record changes no byte outside table entry n and the record
      itself: the earlier entries, the free gap and everything at or above
      end keep their values. */
  lemma PlaceRecordFrame(buf: seq<Byte>, n: nat, end: nat, s: seq<Byte>)
    requires end <= |buf| < 0x1_0000
    requires OffsetWidth * (n + 1) + OffsetWidth + |s| <= end
    ensures var r := PlaceRecord(buf, n, end, s);
            && |r| == |buf|
            && forall k :: 0 <= k < |buf| && !(OffsetWidth * n <= k < OffsetWidth * (n + 1)) && !(end - |s| - OffsetWidth <= k < end) ==>
                 r[k] == buf[k]
  {
  }

  /** The placed record is entry n of the table, and reads back as s. */
  lemma PlaceRecordWrites(buf: seq<Byte>, n: nat, end: nat, s: seq<Byte>)
    requires end <= |buf| < 0x1_0000
    requires OffsetWidth * (n + 1) + OffsetWidth + |s| <= end
    ensures var r := PlaceRecord(buf, n, end, s);
            Resolvable(r, n) && Entry(r, n) == end - |s| - OffsetWidth && Length(r, n) == |s| && Slot(r, n) == s
  {
    var at := end - |s| - OffsetWidth;
    var b1 := WriteU16(buf, at, |s|);
    var b2 := Splice(b1, at + OffsetWidth, s);
    var r := WriteU16(b2, OffsetWidth * n, at);
    assert Entry(r, n) == at;
    assert r[at + OffsetWidth .. end] == s;
  }

  /** Placing a record leaves an earlier record j where it was, unchanged. */
  lemma PlaceRecordKeeps(buf: seq<Byte>, n: nat, end: nat, s: seq<Byte>, j: nat)
    requires Packed(buf, n, end) && end <= |buf| < 0x1_0000
    requires OffsetWidth * (n + 1) + OffsetWidth + |s| <= end
    requires j < n
    ensures var r := PlaceRecord(buf, n, end, s);
            && Resolvable(r, j) && Entry(r, j) == Entry(buf, j) && Length(r, j) == Length(buf, j)
            && Slot(r, j) == Slot(buf, j) && Top(r, j) == Top(buf, j)
  {
    PlaceRecordFrame(buf, n, end, s);
    TopDecreasing(buf, n, end, j + 1, n);
    assert Resolvable(buf, j);
    SlotFrame(buf, PlaceRecord(buf, n, end, s), j);
    if 0 < j {
      PlaceRecordKeepsEntry(buf, n, end, s, j - 1);
    }
  }

  /** Placing a record leaves table entry j < n unchanged. */
  lemma PlaceRecordKeepsEntry(buf: seq<Byte>, n: nat, end: nat, s: seq<Byte>, j: nat)
    requires end <= |buf| < 0x1_0000
    requires OffsetWidth * (n + 1) + OffsetWidth + |s| <= end
    requires j < n
    ensures Entry(PlaceRecord(buf, n, end, s), j) == Entry(buf, j)
  {
    PlaceRecordFrame(buf, n, end, s);
  }

  /** Record j <= n of the buffer with a record placed is laid out as Packed demands. */
  lemma PlaceRecordLaysOut(buf: seq<Byte>, n: nat, end: nat, s: seq<Byte>, j: nat)
    requires Packed(buf, n, end) && end <= |buf| < 0x1_0000
    requires OffsetWidth * (n + 1) + OffsetWidth + |s| <= end
    requires j <= n
    ensures var r := PlaceRecord(buf, n, end, s);
            Resolvable(r, j) && Entry(r, j) + OffsetWidth + Length(r, j) == Top(r, j)
  {
    if j < n {
      PlaceRecordKeeps(buf, n, end, s, j);
      assert Resolvable(buf, j);
    } else {
      PlaceRecordWrites(buf, n, end, s);
      if 0 < n {
        PlaceRecordKeepsEntry(buf, n, end, s, n - 1);
      }
    }
  }

  /** Placing a record keeps the buffer packed, with one more record. */
  lemma PlaceRecordPacked(buf: seq<Byte>, n: nat, end: nat, s: seq<Byte>)
    requires Packed(buf, n, end) && end <= |buf| < 0x1_0000
    requires OffsetWidth * (n + 1) + OffsetWidth + |s| <= end
    ensures Packed(PlaceRecord(buf, n, end, s), n + 1, end - |s| - OffsetWidth)
  {
    var r := PlaceRecord(buf, n, end, s);
    forall j {:trigger Resolvable(r, j)} {:trigger Length(r, j)} | 0 <= j < n + 1
      ensures Resolvable(r, j) && Entry(r, j) + OffsetWidth + Length(r, j) == Top(r, j)
    {
      PlaceRecordLaysOut(buf, n, end, s, j);
    }
    PlaceRecordWrites(buf, n, end, s);
  }

  /** Record j of the buffer with a record placed is record j of the old
      buffer, or s for j == n. */
  lemma PlaceRecordSlot(buf: seq<Byte>, n: nat, end: nat, s: seq<Byte>, j: nat)
    requires Packed(buf, n, end) && end <= |buf| < 0x1_0000
    requires OffsetWidth * (n + 1) + OffsetWidth + |s| <= end
    requires j <= n
    ensures var r := PlaceRecord(buf, n, end, s);
            Resolvable(r, j) && Slot(r, j) == (Slots(buf, n) + [s])[j]
  {
    if j < n {
      PlaceRecordKeeps(buf, n, end, s, j);
      assert Slots(buf, n)[j] == Slot(buf, j);
    } else {
      PlaceRecordWrites(buf, n, end, s);
    }
  }

  /** Placing a record keeps the buffer packed, appends the payload as record
      n, and leaves every earlier record as it was. */
  lemma PlaceRecordAppends(buf: seq<Byte>, n: nat, end: nat, s: seq<Byte>)
    requires Packed(buf, n, end) && end <= |buf| < 0x1_0000
    requires OffsetWidth * (n + 1) + OffsetWidth + |s| <= end
    ensures Packed(PlaceRecord(buf, n, end, s), n + 1, end - |s| - OffsetWidth)
    ensures Slots(PlaceRecord(buf, n, end, s), n + 1) == Slots(buf, n) + [s]
  {
    var r := PlaceRecord(buf, n, end, s);
    PlaceRecordPacked(buf, n, end, s);
    var got, want := Slots(r, n + 1), Slots(buf, n) + [s];
    forall j | 0 <= j < n + 1
      ensures got[j] == want[j]
    {
      PlaceRecordSlot(buf, n, end, s, j);
    }
  }

  /** The position of byte k of record i's payload. */
  function PayloadPos(buf: seq<Byte>, i: nat, k: nat): nat
    requires OffsetWidth * (i + 1) <= |buf|
  {
    Entry(buf, i) + OffsetWidth + k
  }

  /** A byte written past the first n table entries leaves entry j < n unchanged. */
  lemma WriteOutsideTable(buf: seq<Byte>, n: nat, p: nat, b: Byte, j: nat)
    requires OffsetWidth * n <= p < |buf| && j < n
    ensures Entry(buf[p := b], j) == Entry(buf, j)
  {
  }

  /** Record j reads the same after a write to a byte outside its table
      entry, its length prefix and its payload. */
  lemma SlotFrameUpdate(buf: seq<Byte>, j: nat, p: nat, b: Byte)
    requires Resolvable(buf, j) && p < |buf|
    requires p < OffsetWidth * j || OffsetWidth * (j + 1) <= p
    requires p < Entry(buf, j) || Entry(buf, j) + OffsetWidth + Length(buf, j) <= p
    ensures var r := buf[p := b];
            Resolvable(r, j) && Entry(r, j) == Entry(buf, j) && Length(r, j) == Length(buf, j) && Slot(r, j) == Slot(buf, j)
  {
    SlotFrame(buf, buf[p := b], j);
  }

  /** Writing a payload byte of record i leaves record j's table entry and
      where record j ends unchanged. */
  lemma PlaceByteKeepsTable(buf: seq<Byte>, n: nat, end: int, i: nat, k: nat, b: Byte, j: nat)
    requires Packed(buf, n, end) && OffsetWidth * n <= end
    requires i < n && Resolvable(buf, i) && k < Length(buf, i)
    requires j < n
    ensures var r := buf[PayloadPos(buf, i, k) := b];
            Entry(r, j) == Entry(buf, j) && Top(r, j) == Top(buf, j)
  {
    var p := PayloadPos(buf, i, k);
    TopDecreasing(buf, n, end, i + 1, n);
    WriteOutsideTable(buf, n, p, b, j);
    if 0 < j {
      WriteOutsideTable(buf, n, p, b, j - 1);
    }
  }

  /** Writing a payload byte of record i leaves every other record j, and
      record i's table entry and length prefix, unchanged. */
  lemma PlaceByteKeeps(buf: seq<Byte>, n: nat, end: int, i: nat, k: nat, b: Byte, j: nat)
    requires Packed(buf, n, end) && OffsetWidth * n <= end
    requires i < n && Resolvable(buf, i) && k < Length(buf, i)
    requires j < n
    ensures var r := buf[PayloadPos(buf, i, k) := b];
            && Resolvable(r, j) && Entry(r, j) == Entry(buf, j) && Length(r, j) == Length(buf, j)
            && Top(r, j) == Top(buf, j)
            && (j != i ==> Slot(r, j) == Slot(buf, j))
  {
    var p := PayloadPos(buf, i, k);
    var r := buf[p := b];
    assert Resolvable(buf, j);
    PlaceByteKeepsTable(buf, n, end, i, k, b, j);
    TopDecreasing(buf, n, end, i + 1, n);
    assert OffsetWidth * (j + 1) <= OffsetWidth * n <= p;
    if j < i {
      TopDecreasing(buf, n, end, j + 1, i);
      assert Resolvable(buf, i);
      SlotFrameUpdate(buf, j, p, b);
    } else if i < j {
      TopDecreasing(buf, n, end, i + 1, j);
      SlotFrameUpdate(buf, j, p, b);
    }
  }

  /** Record j of the buffer with a payload byte written is laid out as Packed demands. */
  lemma PlaceByteLaysOut(buf: seq<Byte>, n: nat, end: int, i: nat, k: nat, b: Byte, j: nat)
    requires Packed(buf, n, end) && OffsetWidth * n <= end
    requires i < n && Resolvable(buf, i) && k < Length(buf, i)
    requires j < n
    ensures var r := buf[PayloadPos(buf, i, k) := b];
            Resolvable(r, j) && Entry(r, j) + OffsetWidth + Length(r, j) == Top(r, j)
  {
    PlaceByteKeeps(buf, n, end, i, k, b, j);
    assert Resolvable(buf, j);
  }

  /** Writing a payload byte keeps the buffer packed. */
  lemma PlaceBytePacked(buf: seq<Byte>, n: nat, end: int, i: nat, k: nat, b: Byte)
    requires Packed(buf, n, end) && OffsetWidth * n <= end
    requires i < n && Resolvable(buf, i) && k < Length(buf, i)
    ensures Packed(buf[PayloadPos(buf, i, k) := b], n, end)
  {
    var r := buf[PayloadPos(buf, i, k) := b];
    forall j {:trigger Resolvable(r, j)} {:trigger Length(r, j)} | 0 <= j < n
      ensures Resolvable(r, j) && Entry(r, j) + OffsetWidth + Length(r, j) == Top(r, j)
    {
      PlaceByteLaysOut(buf, n, end, i, k, b, j);
    }
    PlaceByteKeepsTable(buf, n, end, i, k, b, n - 1);
  }

  /** Writing one payload byte of record i through its view keeps the buffer
      packed, changes that byte of record i and no other record. */
  lemma PlaceByteUpdates(buf: seq<Byte>, n: nat, end: int, i: nat, k: nat, b: Byte)
    requires Packed(buf, n, end) && OffsetWidth * n <= end
    requires i < n && Resolvable(buf, i) && k < Length(buf, i)
    ensures var r := buf[PayloadPos(buf, i, k) := b];
            Packed(r, n, end) && Slots(r, n) == Slots(buf, n)[i := Slot(buf, i)[k := b]]
  {
    var r := buf[PayloadPos(buf, i, k) := b];
    PlaceBytePacked(buf, n, end, i, k, b);
    PlaceByteKeeps(buf, n, end, i, k, b, i);
    assert Slot(r, i) == Slot(buf, i)[k := b];
    var got, want := Slots(r, n), Slots(buf, n)[i := Slot(buf, i)[k := b]];
    forall j | 0 <= j < n
      ensures got[j] == want[j]
    {
      PlaceByteKeeps(buf, n, end, i, k, b, j);
    }
  }

  /** A header and a data buffer form a well-formed page: the offset table,
      the free gap and the packed record area follow one another inside
      the buffer. */
  ghost predicate Wellformed(h: Header, buf: seq<Byte>)
  {
    && |buf| == DataSize
    && HeaderSize <= h.freeRegionStart <= h.freeRegionEnd <= DataSize
    && (h.freeRegionStart - HeaderSize) % OffsetWidth == 0
    && Packed(buf, h.Size(), h.freeRegionEnd)
  }

  /** The header after a record of |s| bytes is inserted. */
  function Appended(h: Header, s: seq<Byte>): Header
    requires OffsetWidth + |s| <= h.freeRegionEnd && h.freeRegionStart + OffsetWidth < 0x1_0000
  {
    Header(h.freeRegionStart + OffsetWidth, h.freeRegionEnd - |s| - OffsetWidth)
  }

  /** Inserting a record that fits into a well-formed page gives a well-formed
      page with one more record, |s| + 4 bytes less free space, and s as its
      last record. */
  lemma InsertWellformed(h: Header, buf: seq<Byte>, s: seq<Byte>)
    requires Wellformed(h, buf) && h.Fits(|s| + OffsetWidth + PrefixAllowance)
    ensures OffsetWidth * (h.Size() + 1) + OffsetWidth + |s| <= h.freeRegionEnd
    ensures var h', buf' := Appended(h, s), PlaceRecord(buf, h.Size(), h.freeRegionEnd, s);
            && h' == Header(h.freeRegionStart + OffsetWidth, h.freeRegionEnd - |s| - OffsetWidth)
            && Wellformed(h', buf')
            && h'.Size() == h.Size() + 1
            && h'.FreeSpace() == h.FreeSpace() - (|s| + OffsetWidth + PrefixAllowance)
            && Slots(buf', h'.Size()) == Slots(buf, h.Size()) + [s]
  {
    SizeCountsEntries(h);
    var h' := Appended(h, s);
    SizeAfterAppend(h, h'.freeRegionEnd);
    PlaceRecordAppends(buf, h.Size(), h.freeRegionEnd, s);
  }

  /** Writing byte b at position k of record i of a well-formed page gives a
      well-formed page in which only that byte of record i has changed. */
  lemma WriteWellformed(h: Header, buf: seq<Byte>, i: nat, k: nat, b: Byte)
    requires Wellformed(h, buf) && i < h.Size() && k < |Slots(buf, h.Size())[i]|
    ensures Resolvable(buf, i) && k < Length(buf, i)
    ensures var buf', updated: seq<Byte> := buf[PayloadPos(buf, i, k) := b], Slots(buf, h.Size())[i][k := b];
            && Wellformed(h, buf')
            && Slots(buf', h.Size()) == Slots(buf, h.Size())[i := updated]
  {
    SizeCountsEntries(h);
    assert Resolvable(buf, i);
    PlaceByteUpdates(buf, h.Size(), h.freeRegionEnd, i, k, b);
  }

  // ---------------------------------------------------------------------
  // The page
  // ---------------------------------------------------------------------

  class Page {
    /** m_header */
    var header: Header
    /** m_data */
    const data: array<Byte>

    /** The page is well formed: the offset table, the free gap and the
        packed record area follow one another inside the data buffer. */
    ghost predicate Valid()
      reads this, data
    {
      Wellformed(header, data[..])
    }

    /** The records the page holds, in index order; at(i) returns record i. */
    ghost function Records(): (rs: seq<seq<Byte>>)
      reads this, data
      requires Valid()
      ensures |rs| == header.Size()
      ensures forall i :: 0 <= i < |rs| ==> At(i) == Ok(rs[i])
    {
      Slots(data[..], header.Size())
    }

    /** page(): an empty page. */
    constructor ()
      ensures Valid() && header == EmptyHeader && Records() == [] && fresh(data)
      ensures header.Size() == 0 && header.Empty() && header.FreeSpace() == DataSize - HeaderSize
    {
      header := EmptyHeader;
      data := new Byte[DataSize];
    }

    /** size_and_offset_of(i): the length prefix of record i and the index
        of its first payload byte; the payload lies inside m_data. */
    function SizeAndOffsetOf(i: nat): (r: (U16, nat))
      reads this, data
      requires Resolvable(data[..], i)
      ensures r.0 == Length(data[..], i)
      ensures r.1 == Entry(data[..], i) + OffsetWidth && r.1 + r.0 <= data.Length
    {
      var e := Entry(data[..], i);
      (ReadU16(data[..], e), e + OffsetWidth)
    }

    /** at(i): out_of_range exactly when i >= size(), otherwise the payload
        of record i. */
    function At(i: nat): (r: Result<seq<Byte>>)
      reads this, data
      requires header.Contains(i) ==> Resolvable(data[..], i)
      ensures r.Err? <==> i >= header.Size()
      ensures r.Err? ==> r.error == OutOfRange
      ensures r.Ok? ==> r.value == Slot(data[..], i)
    {
      if !header.Contains(i) then Err(OutOfRange)
      else
        var (len, off) := SizeAndOffsetOf(i);
        Ok(data[off .. off + len])
    }

    /** Stores the word v at byte position pos of m_data. */
    method StoreU16(pos: nat, v: U16)
      requires pos + 2 <= data.Length
      modifies data
      ensures data[..] == WriteU16(old(data[..]), pos, v)
    {
      data[pos] := v % 0x100;
      data[pos + 1] := v / 0x100;
    }

    /** Writes the length prefix of s at position at of m_data, then copies
        the bytes of s right after it. */
    method StoreRecord(at: nat, s: seq<Byte>)
      requires at + OffsetWidth + |s| <= data.Length && |s| < 0x1_0000
      modifies data
      ensures data[..] == Splice(WriteU16(old(data[..]), at, |s|), at + OffsetWidth, s)
    {
      StoreU16(at, |s|);
      ghost var withPrefix := data[..];
      var k := 0;
      while k < |s|
        invariant 0 <= k <= |s|
        invariant data[..] == Splice(withPrefix, at + OffsetWidth, s[..k])
      {
        data[at + OffsetWidth + k] := s[k];
        k := k + 1;
      }
      assert s[..|s|] == s;
    }

    /** Writes the length prefix and payload of s just below end, then the
        offset of where they start into table entry n. */
    method StoreEntry(n: nat, end: nat, s: seq<Byte>) returns (start: nat)
      requires end <= data.Length < 0x1_0000
      requires OffsetWidth * (n + 1) + OffsetWidth + |s| <= end
      modifies data
      ensures start == end - |s| - OffsetWidth
      ensures data[..] == PlaceRecord(old(data[..]), n, end, s)
    {
      start := end - |s| - OffsetWidth;
      StoreRecord(start, s);
      StoreU16(OffsetWidth * n, start);
    }

    /** insert(s): bad_alloc, and no change, when s, its length prefix and its
        offset entry do not fit; otherwise s becomes the next record. */
    method Insert(s: seq<Byte>) returns (r: Result<nat>)
      requires Valid()
      modifies this, data
      ensures Valid()
      ensures r.Err? <==> !old(header).Fits(|s| + OffsetWidth + PrefixAllowance)
      ensures r.Err? ==> r.error == BadAlloc && header == old(header) && data[..] == old(data[..])
      ensures r.Ok? ==> && r.value == old(header.Size())
                        && header.Size() == old(header.Size()) + 1
                        && header.FreeSpace() == old(header.FreeSpace()) - (|s| + OffsetWidth + PrefixAllowance)
                        && Records() == old(Records()) + [s]
      ensures r.Ok? ==> data[..] == PlaceRecord(old(data[..]), old(header.Size()), old(header.freeRegionEnd), s)
    {
      if !header.Fits(|s| + OffsetWidth + PrefixAllowance) {
        return Err(BadAlloc);
      }
      ghost var h, buf := header, data[..];
      InsertWellformed(h, buf, s);
      var entry := header.Size();
      var start := StoreEntry(entry, header.freeRegionEnd, s);
      header := Header(header.freeRegionStart + OffsetWidth, start);
      assert header == Appended(h, s) && data[..] == PlaceRecord(buf, h.Size(), h.freeRegionEnd, s);
      r := Ok(entry);
    }

    /** Writes byte b at position k of the view at(i) returns: out_of_range
        when i >= size(), otherwise byte k of record i becomes b. */
    method WriteAt(i: nat, k: nat, b: Byte) returns (r: Result<()>)
      requires Valid()
      requires header.Contains(i) ==> k < |Records()[i]|
      modifies data
      ensures Valid()
      ensures r.Err? <==> i >= header.Size()
      ensures r.Err? ==> r.error == OutOfRange && data[..] == old(data[..])
      ensures r.Ok? ==> var updated: seq<Byte> := old(Records())[i][k := b]; Records() == old(Records())[i := updated]
      ensures r.Ok? ==> data[..] == old(data[..])[old(SizeAndOffsetOf(i)).1 + k := b]
    {
      if !header.Contains(i) {
        return Err(OutOfRange);
      }
      var (len, off) := SizeAndOffsetOf(i);
      ghost var buf := data[..];
      WriteWellformed(header, buf, i, k, b);
      assert off + k == PayloadPos(buf, i, k);
      data[off + k] := b;
      assert data[..] == buf[PayloadPos(buf, i, k) := b];
      r := Ok(());
    }

    /** clear(): resets both offsets; the end offset becomes PageSize, which
        lies beyond m_data, so the page is no longer well formed. */
    method Clear()
      modifies this
      ensures header == ClearedHeader
      ensures header.Size() == 0 && header.Empty() && !header.Contains(0)
      ensures header.FreeSpace() == PageSize - HeaderSize
      ensures !Valid()
    {
      header := Header(HeaderSize, PageSize);
    }

    /** clear() with the end offset the constructor uses: an empty, well-formed page. */
    method Reset()
      requires data.Length == DataSize
      modifies this
      ensures header == EmptyHeader && Valid() && Records() == []
      ensures header.FreeSpace() == DataSize - HeaderSize
    {
      header := Header(HeaderSize, DataSize);
    }

    /** operator<<: the header, then all of m_data, including free and stale bytes. */
    function Serialize(): (bytes: seq<Byte>)
      reads this, data
      ensures |bytes| == HeaderSize + data.Length
      ensures DecodeHeader(bytes[..HeaderSize]) == header && bytes[HeaderSize..] == data[..]
    {
      EncodeHeader(header) + data[..]
    }

    /** operator>>: reads the header, then all of m_data, verbatim. */
    method Deserialize(bytes: seq<Byte>)
      requires |bytes| == HeaderSize + data.Length
      modifies this, data
      ensures header == DecodeHeader(bytes[..HeaderSize]) && data[..] == bytes[HeaderSize..]
      ensures Serialize() == bytes
    {
      header := DecodeHeader(bytes[..HeaderSize]);
      var k := 0;
      while k < data.Length
        invariant 0 <= k <= data.Length
        invariant header == DecodeHeader(bytes[..HeaderSize])
        invariant data[..k] == bytes[HeaderSize..HeaderSize + k]
      {
        data[k] := bytes[HeaderSize + k];
        k := k + 1;
      }
      assert data[..] == data[..data.Length];
      DecodeEncodeHeader(bytes[..HeaderSize]);
      assert bytes == bytes[..HeaderSize] + bytes[HeaderSize..];
    }
  }

  /** Writes a page to a stream and reads the stream into a new page: the new
      page has the same header and data, so the same records. */
  method TransferPage(p: Page) returns (q: Page)
    requires p.data.Length == DataSize
    ensures q.header == p.header && q.data[..] == p.data[..]
    ensures p.Valid() ==> q.Valid() && q.Records() == p.Records()
  {
    var bytes := p.Serialize();
    q := new Page();
    q.Deserialize(bytes);
  }
}
