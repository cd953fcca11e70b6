/** xdb_search over its three kinds of storage. */
module XdbSearcher {
  import opened Ascii
  import opened Powers
  import opened XdbSpec

  /** xdb_load_vector_index */
  function LoadVectorIndex(file: Text): (r: Option<Text>)
    ensures r.Some? <==> HEADER_LENGTH + VECTOR_INDEX_LENGTH <= |file|
    ensures r.Some? ==> |r.value| == VECTOR_INDEX_LENGTH
  {
    ReadAt(file, HEADER_LENGTH, VECTOR_INDEX_LENGTH)
  }

  /** xdb_load_content, which keeps the size of the file in an unsigned int. */
  function LoadContent(file: Text): Text {
    file[..|file| % TWO32]
  }

  type VectorIndex = v: Text | |v| == VECTOR_INDEX_LENGTH ghost witness seq(VECTOR_INDEX_LENGTH, _ => 0)

  class Searcher {
    const handle: Text
    const vIndex: Option<VectorIndex>
    const content: Option<Text>
    var ioCount: nat

    constructor WithFileOnly(file: Text)
      ensures handle == file && vIndex == None && content == None
    {
      handle, vIndex, content, ioCount := file, None, None, 0;
    }

    constructor WithVectorIndex(file: Text, v: VectorIndex)
      ensures handle == file && vIndex == Some(v) && content == None
    {
      handle, vIndex, content, ioCount := file, Some(v), None, 0;
    }

    constructor WithBuffer(c: Text)
      ensures vIndex == None && content == Some(c)
    {
      handle, vIndex, content, ioCount := [], None, Some(c), 0;
    }

    /** What a search answers with this storage. */
    function Answer(ip: uint32, length: nat): Answer {
      if vIndex.Some? then InBlock(Image(), BlockStart(vIndex.value, 0, ip), BlockEnd(vIndex.value, 0, ip), ip, length)
      else SearchImage(Image(), ip, length)
    }

    function Image(): Text {
      if content.Some? then content.value else handle
    }

    /** How often a search goes to the file. */
    function Reads(ip: uint32, length: nat): nat {
      if content.Some? then 0
      else if vIndex.Some? then ReadsInBlock(handle, BlockStart(vIndex.value, 0, ip), BlockEnd(vIndex.value, 0, ip), ip, length)
      else
        match ReadAt(handle, HEADER_LENGTH + VectorOffset(ip), VECTOR_INDEX_SIZE)
        case None => 1
        case Some(b) => 1 + ReadsInBlock(handle, GetUint(b, 0), GetUint(b, 4), ip, length)
    }

    /** memcpy from the content, which must have the bytes, or fseek and fread on the file, which may come up short. */
    method Read(offset: nat, buffer: array<byte>, length: nat) returns (err: int)
      requires 0 < length <= buffer.Length
      requires content.Some? ==> offset + length <= |content.value|
      modifies this`ioCount, buffer
      ensures err == if offset + length <= |Image()| then 0 else 2
      ensures err == 0 ==> ReadAt(Image(), offset, length) == Some(buffer[..length])
      ensures buffer[length..] == old(buffer[length..])
      ensures ioCount == old(ioCount) + if content.Some? then 0 else 1
    {
      if content.Some? {
        Copy(content.value, offset, buffer, length);
        return 0;
      }
      ioCount := ioCount + 1;
      var n := if offset + length <= |handle| then length else if offset <= |handle| then |handle| - offset else 0;
      Copy(handle, offset, buffer, n);
      return if n == length then 0 else 2;
    }

    static method Copy(source: Text, offset: nat, buffer: array<byte>, n: nat)
      requires offset + n <= |source| || n == 0
      requires n <= buffer.Length
      modifies buffer
      ensures n > 0 ==> buffer[..n] == source[offset..offset + n]
      ensures buffer[n..] == old(buffer[n..])
    {
      forall k | 0 <= k < n {
        buffer[k] := source[offset + k];
      }
    }

    /** Reads the record in a slot. */
    method ReadSegment(s: uint32, m: nat, buffer: array<byte>) returns (err: int)
      requires buffer.Length == SEGMENT_INDEX_SIZE
      requires content.Some? ==> SegmentAt(Image(), s, m).Some?
      modifies this`ioCount, buffer
      ensures err == if SegmentAt(Image(), s, m).Some? then 0 else 2
      ensures err == 0 ==> SegmentAt(Image(), s, m) == Some(Decoded(buffer[..]))
      ensures ioCount == old(ioCount) + if content.Some? then 0 else 1
    {
      hide Decoded;
      err := Read(SlotAt(s, m), buffer, SEGMENT_INDEX_SIZE);
      assert buffer[..SEGMENT_INDEX_SIZE] == buffer[..];
    }

    /** The loop of xdb_search: error, length and place of the region; a length of 0 when there is none. */
    method FindSegment(s: uint32, last: int, ip: uint32) returns (err: int, len: nat, ptr: nat)
      requires content.Some? ==> Probe(SlotsOf(Image(), s), ip, 0, last) != Unreadable
      modifies this`ioCount
      ensures match Probe(SlotsOf(Image(), s), ip, 0, last)
              case Absent => err == 0 && len == 0
              case Unreadable => err == 22
              case Found(seg) => err == 0 && len == seg.len && ptr == seg.ptr
      ensures ioCount == old(ioCount) + if content.Some? then 0 else |Probed(SlotsOf(Image(), s), ip, 0, last)|
    {
      hide Probe, Probed, SegmentAt, GetUint, GetUshort, Image;
      var buffer := new byte[SEGMENT_INDEX_SIZE];
      var l: nat, h := 0, last;
      err, len, ptr := 0, 0, 0;
      while l <= h
        invariant h <= last && err == 0 && len == 0
        invariant Probe(SlotsOf(Image(), s), ip, l, h) == Probe(SlotsOf(Image(), s), ip, 0, last)
        invariant content.Some? ==> ioCount == old(ioCount)
        invariant content.None? ==>
                    ioCount + |Probed(SlotsOf(Image(), s), ip, l, h)| == old(ioCount) + |Probed(SlotsOf(Image(), s), ip, 0, last)|
        decreases h - l + 1
      {
        ProbeStep(SlotsOf(Image(), s), ip, l, h);
        var m: nat := (l + h) / 2;
        err := ReadSegment(s, m, buffer);
        if err != 0 {
          return 20 + err, 0, 0;
        }
        var segment := buffer[..];
        var first := GetUint(segment, 0);
        if ip < first {
          h := m - 1;
        } else {
          var end := GetUint(segment, 4);
          if ip > end {
            l := m + 1;
          } else {
            len, ptr := GetUshort(segment, 8), GetUint(segment, 10);
            return;
          }
        }
      }
      ProbeEnd(SlotsOf(Image(), s), ip, l, h);
    }

    /** The region as a string in the buffer. */
    method ReadRegion(ptr: nat, len: nat, region: array<byte>) returns (code: int)
      requires 0 < len < region.Length
      requires content.Some? ==> ptr + len <= |content.value|
      modifies this`ioCount, region
      ensures match ReadAt(Image(), ptr, len)
              case None => code == 32
              case Some(text) => code == 0 && IsString(region, text)
      ensures ioCount == old(ioCount) + if content.Some? then 0 else 1
      ensures region[len + 1..] == old(region[len + 1..])
    {
      var err := Read(ptr, region, len);
      assert region[len..][1..] == region[len + 1..];
      if err != 0 {
        return 30 + err;
      }
      region[len] := NUL;
      return 0;
    }

    /** xdb_search behind the vector index. */
    method SearchBlock(s: uint32, e: uint32, ip: uint32, region: array<byte>, length: nat) returns (code: int)
      requires 0 < region.Length && length <= region.Length
      requires content.Some? ==> !RunsOut(InBlock(Image(), s, e, ip, length))
      modifies this`ioCount, region
      ensures match InBlock(Image(), s, e, ip, length)
              case Error(e) => code == e && (e != 32 ==> region[..] == old(region[..]))
              case Region(text) => code == 0 && IsString(region, text) && region[|text| + 1..] == old(region[|text| + 1..])
      ensures ioCount == old(ioCount) + if content.Some? then 0 else ReadsInBlock(Image(), s, e, ip, length)
    {
      hide Probe, Probed, LastSlot;
      var err, len, ptr := FindSegment(s, LastSlot(s, e), ip);
      if err != 0 {
        return err;
      }
      if len == 0 {
        region[0] := NUL;
        return 0;
      }
      if len >= Int32(length % TWO32) {
        return 1;
      }
      code := ReadRegion(ptr, len, region);
    }

    /**
     * xdb_search: the answer stands in the buffer behind a code of 0, with its terminator; or the code is that of the error.
     * A content buffer must hold the bytes that the search needs, since nothing checks for it.
     */
    method Search(ip: uint32, region: array<byte>, length: nat) returns (code: int)
      requires 0 < region.Length && length <= region.Length
      requires content.Some? ==> !RunsOut(Answer(ip, length))
      modifies this`ioCount, region
      ensures match Answer(ip, length)
              case Error(e) => code == e && (e != 32 ==> region[..] == old(region[..]))
              case Region(text) => code == 0 && IsString(region, text) && region[|text| + 1..] == old(region[|text| + 1..])
      ensures ioCount == Reads(ip, length)
    {
      hide InBlock, ReadsInBlock, VectorOffset;
      ioCount := 0;
      var s, e;
      if vIndex.Some? {
        s, e := BlockStart(vIndex.value, 0, ip), BlockEnd(vIndex.value, 0, ip);
      } else if content.Some? {
        s := GetUint(content.value, HEADER_LENGTH + VectorOffset(ip));
        e := GetUint(content.value, HEADER_LENGTH + VectorOffset(ip) + 4);
      } else {
        var vector := new byte[VECTOR_INDEX_SIZE];
        var err := Read(HEADER_LENGTH + VectorOffset(ip), vector, VECTOR_INDEX_SIZE);
        if err != 0 {
          return 10 + err;
        }
        assert vector[..VECTOR_INDEX_SIZE] == vector[..];
        s, e := GetUint(vector[..], 0), GetUint(vector[..], 4);
      }
      code := SearchBlock(s, e, ip, region, length);
    }
  }

  /** The buffer starts with the text and a terminator. */
  predicate IsString(buffer: array<byte>, text: Text)
    reads buffer
  {
    |text| < buffer.Length && buffer[..|text|] == text && buffer[|text|] == NUL
  }

  // ----- The three kinds of storage

  lemma {:induction false} FileReads(file: Text, ip: uint32)
    requires LoadVectorIndex(file).Some?
    ensures var v := LoadVectorIndex(file).value;
            var r := ReadAt(file, HEADER_LENGTH + VectorOffset(ip), VECTOR_INDEX_SIZE);
            r.Some? && GetUint(r.value, 0) == BlockStart(v, 0, ip) && GetUint(r.value, 4) == BlockEnd(v, 0, ip)
  {
    var v, at := LoadVectorIndex(file).value, VectorOffset(ip);
    var b := ReadAt(file, HEADER_LENGTH + at, VECTOR_INDEX_SIZE).value;
    hide VectorOffset;
    assert forall i :: 0 <= i < VECTOR_INDEX_SIZE ==> v[at + i] == b[i];
  }

  /** The cached vector index gives the block that the file gives. */
  lemma {:induction false} VectorIndexAgrees(file: Text, ip: uint32, length: nat)
    requires LoadVectorIndex(file).Some?
    ensures var v := LoadVectorIndex(file).value;
            InBlock(file, BlockStart(v, 0, ip), BlockEnd(v, 0, ip), ip, length) == SearchImage(file, ip, length)
  {
    hide InBlock, VectorOffset, GetUint, BlockStart, BlockEnd, LoadVectorIndex;
    FileReads(file, ip);
  }

  /** An upper bound on the reads behind the vector index: the probes of n slots, and the region. */
  function ReadBound(s: uint32, e: uint32): nat {
    var last := LastSlot(s, e);
    1 + if last < 0 then 0 else FloorLog2(last + 1) + 1
  }

  lemma {:induction false} ReadsAreFew(img: Text, s: uint32, e: uint32, ip: uint32, length: nat)
    ensures ReadsInBlock(img, s, e, ip, length) <= ReadBound(s, e)
  {
    hide Probed, Probe, RegionOf, LastSlot, FloorLog2;
    ProbesAreFew(SlotsOf(img, s), ip, 0, LastSlot(s, e));
  }

  /**
   * One file, searched through each kind of storage: the answers are the same, and the numbers of reads are within the
   * bound and 1 for the vector index, within the bound, and none.
   */
  method SearchThreeWays(file: Text, ip: uint32, length: nat, a: array<byte>, b: array<byte>, c: array<byte>)
    returns (code: int, counts: seq<nat>)
    requires a != b && b != c && a != c
    requires 0 < a.Length == b.Length == c.Length && length <= a.Length
    requires HEADER_LENGTH + VECTOR_INDEX_LENGTH <= |file| < TWO32 && !RunsOut(SearchImage(file, ip, length))
    modifies a, b, c
    ensures match SearchImage(file, ip, length)
            case Error(e) => code == e
            case Region(text) => code == 0 && IsString(a, text) && IsString(b, text) && IsString(c, text)
    ensures var v := LoadVectorIndex(file).value;
            var bound := ReadBound(BlockStart(v, 0, ip), BlockEnd(v, 0, ip));
            |counts| == 3 && counts[0] <= bound + 1 && counts[1] <= bound && counts[2] == 0
  {
    hide InBlock, SearchImage, ReadsInBlock, ReadBound, GetUint, VectorOffset, IsString;
    var v := LoadVectorIndex(file).value;
    VectorIndexAgrees(file, ip, length);
    ReadsAreFew(file, BlockStart(v, 0, ip), BlockEnd(v, 0, ip), ip, length);
    FileReads(file, ip);
    var fileOnly := new Searcher.WithFileOnly(file);
    code := fileOnly.Search(ip, a, length);
    var cached := new Searcher.WithVectorIndex(file, v);
    var code2 := cached.Search(ip, b, length);
    assert LoadContent(file) == file;
    var inMemory := new Searcher.WithBuffer(LoadContent(file));
    var code3 := inMemory.Search(ip, c, length);
    assert code == code2 == code3;
    counts := [fileOnly.ioCount, cached.ioCount, inMemory.ioCount];
  }

  /**
   * The bytes that a record of a written block points at come back as a string, whichever kind of storage the image is searched
   * through.
   */
  method SearchWritten(file: Text, ip: uint32, length: nat, ghost s: uint32, ghost records: seq<Segment>, ghost c: nat,
                       a: array<byte>, b: array<byte>, d: array<byte>)
    returns (code: int)
    requires a != b && b != d && a != d && a.Length == b.Length == d.Length && length <= a.Length && length <= 0x7FFF_FFFF
    requires 256 + 524288 <= |file| && HoldsBlock(file, ip, s, records)
    requires c < |records| && records[c].first <= ip <= records[c].last
    requires 0 < records[c].len < length && records[c].ptr + records[c].len <= |file|
    modifies a, b, d
    ensures code == 0
    ensures var len, ptr := records[c].len, records[c].ptr;
            && a[..len] == b[..len] == d[..len] == file[ptr..ptr + len]
            && a[len] == b[len] == d[len] == 0
  {
    hide HoldsBlock, SearchImage, ReadBound;
    RecordIsAnswered(file, ip, s, records, c, length);
    assert |file| < TWO32 by { BlockFits(file, ip, s, records); }
    var counts;
    code, counts := SearchThreeWays(file, ip, length, a, b, d);
  }

  lemma {:induction false} BlockFits(img: Text, ip: uint32, s: uint32, records: seq<Segment>)
    requires HoldsBlock(img, ip, s, records)
    ensures |img| < TWO32
  {
  }

  /** The slots that an image has for an address. */
  predicate HasSlots(img: Text, ip: uint32) {
    LoadVectorIndex(img).Some? && 0 <= LastOf(img, ip)
  }

  function BlockOf(img: Text, ip: uint32): Slots
    requires LoadVectorIndex(img).Some?
  {
    SlotsOf(img, BlockStart(LoadVectorIndex(img).value, 0, ip))
  }

  function LastOf(img: Text, ip: uint32): int
    requires LoadVectorIndex(img).Some?
  {
    LastSlot(BlockStart(LoadVectorIndex(img).value, 0, ip), BlockEnd(LoadVectorIndex(img).value, 0, ip))
  }

  /**
   * The answer for an address is the region that a linear scan of its slots finds, when the slots before the last are in
   * order and the last one is in order too or not needed.
   */
  lemma {:induction false} SearchAnswersByScan(img: Text, ip: uint32, length: nat)
    requires HasSlots(img, ip) && Ordered(BlockOf(img, ip), 0, LastOf(img, ip))
    requires Ordered(BlockOf(img, ip), 0, LastOf(img, ip) + 1) || CoveredBefore(BlockOf(img, ip), ip, LastOf(img, ip))
    ensures SearchImage(img, ip, length) == RegionOf(img, Scan(BlockOf(img, ip), ip, 0, LastOf(img, ip)), length)
  {
    hide Ordered, CoveredBefore, SearchImage, Scan, Probe, RegionOf;
    VectorIndexAgrees(img, ip, length);
    SearchIsScan(BlockOf(img, ip), ip, LastOf(img, ip));
  }

  /**
   * The answer for an address comes from the block's own slots exactly when the end slot is harmless, or covers the address
   * with a region of no bytes. The slots before the end slot are to be in order.
   */
  lemma {:induction false} SearchAnswersFromBlock(img: Text, ip: uint32, length: nat)
    requires HasSlots(img, ip) && Ordered(BlockOf(img, ip), 0, LastOf(img, ip))
    ensures var table, h := BlockOf(img, ip), LastOf(img, ip);
            SearchImage(img, ip, length) == RegionOf(img, Scan(table, ip, 0, h - 1), length) <==>
            EndSlotIsHarmless(table, ip, h) || (table(h).Some? && table(h).value.len == 0)
  {
    hide Ordered, SearchImage, Scan, Probe, EndSlotIsHarmless;
    VectorIndexAgrees(img, ip, length);
    SearchIsOwnScan(BlockOf(img, ip), ip, LastOf(img, ip));
  }
}
