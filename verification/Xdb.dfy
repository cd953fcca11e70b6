/** The ip2region database: what a search answers, as a function of the image, and what that has to do with its records. */
module XdbSpec {
  import opened Ascii
  import opened Powers
  import opened Bits

  const TWO32: int := 0x1_0000_0000
  const HEADER_LENGTH: nat := 256
  const VECTOR_INDEX_COLS: nat := 256
  const VECTOR_INDEX_SIZE: nat := 8
  const VECTOR_INDEX_LENGTH: nat := 524288
  const SEGMENT_INDEX_SIZE: nat := 14

  type uint32 = x: int | 0 <= x < TWO32

  /** The int that the bits of an unsigned number stand for. */
  function Int32(x: uint32): int {
    if x < 0x8000_0000 then x else x - TWO32
  }

  /** Division of ints as C has it, towards zero. */
  function Quotient(a: int, b: nat): int
    requires 0 < b
  {
    if a >= 0 then a / b else -(-a / b)
  }

  /** xdb_get_uint and xdb_get_ushort: the lowest byte comes first. */
  function GetUint(b: Text, at: nat): (n: uint32)
    requires at + 4 <= |b|
  {
    b[at] as int + 0x100 * (b[at + 1] as int) + 0x1_0000 * (b[at + 2] as int) + 0x100_0000 * (b[at + 3] as int)
  }

  function GetUshort(b: Text, at: nat): (n: nat)
    requires at + 2 <= |b|
    ensures n < 0x1_0000
  {
    b[at] as int + 0x100 * (b[at + 1] as int)
  }

  lemma {:induction false} SignIsMasked(b: byte, high: nat)
    ensures (b + 0x100 * high) % 0x100 == b
  {
  }

  /** The bytes are chars whose sign may be extended: what then stands above the lowest eight bits is masked out. */
  lemma {:induction false} UintIsWord(b: Text, at: nat, high: nat)
    requires at + 4 <= |b|
    ensures Word(b[at] + 0x100 * high, b[at + 1] + 0x100 * high, b[at + 2] + 0x100 * high, b[at + 3] + 0x100 * high) == GetUint(b, at)
  {
    hide Word;
    SignIsMasked(b[at], high);
    SignIsMasked(b[at + 1], high);
    SignIsMasked(b[at + 2], high);
    SignIsMasked(b[at + 3], high);
    WordBits(b[at] + 0x100 * high, b[at + 1] + 0x100 * high, b[at + 2] + 0x100 * high, b[at + 3] + 0x100 * high);
  }

  /** What fread gets from a file, if it gets all it asks for. */
  function ReadAt(img: Text, at: nat, n: nat): (r: Option<Text>)
    ensures r.Some? ==> |r.value| == n
  {
    if at + n <= |img| then Some(img[at..at + n]) else None
  }

  /** The place of an address in the vector index, by its two highest bytes. */
  function VectorOffset(ip: uint32): (r: nat)
    ensures r + VECTOR_INDEX_SIZE <= VECTOR_INDEX_LENGTH
  {
    AddressBits(ip);
    And(Shr(ip, 24), 0xFF) * VECTOR_INDEX_COLS * VECTOR_INDEX_SIZE + And(Shr(ip, 16), 0xFF) * VECTOR_INDEX_SIZE
  }

  /** The vector index has an entry for every value of the upper half of an address. */
  lemma {:induction false} VectorIsRowMajor(ip: uint32)
    ensures VectorOffset(ip) == VECTOR_INDEX_SIZE * (ip / 0x1_0000)
  {
    hide And, Shr;
    AddressBits(ip);
    UpperHalf(ip);
  }

  lemma {:induction false} UpperHalf(ip: uint32)
    ensures ip / 0x100_0000 % 0x100 * 0x100 + ip / 0x1_0000 % 0x100 == ip / 0x1_0000
  {
  }

  lemma {:induction false} AddressBits(ip: nat)
    ensures And(Shr(ip, 24), 0xFF) == ip / 0x100_0000 % 0x100 && And(Shr(ip, 16), 0xFF) == ip / 0x1_0000 % 0x100
    ensures And(Shr(ip, 8), 0xFF) == ip / 0x100 % 0x100 && And(ip, 0xFF) == ip % 0x100
  {
    hide And, Shr;
    WordPowers();
    assert Shr(ip, 0) == ip by { Arithmetic(ip, 0, 1); }
    ByteBits(ip, 24, 0x100_0000);
    ByteBits(ip, 16, 0x1_0000);
    ByteBits(ip, 8, 0x100);
    ByteBits(ip, 0, 1);
  }

  /** The last slot that the search may look at; the one at `e` itself is included. */
  function LastSlot(s: uint32, e: uint32): (h: int)
    ensures h <= 0x7FFF_FFFF / SEGMENT_INDEX_SIZE
  {
    Quotient(Int32((e - s) % TWO32), SEGMENT_INDEX_SIZE)
  }

  /** Behind each other the pointers count the slots between them; the wrong way round they do too, below zero. */
  lemma {:induction false} LastSlotIsCut(s: uint32, e: uint32)
    ensures s <= e <= s + 0x7FFF_FFFF ==> LastSlot(s, e) == (e - s) / 14
    ensures e < s <= e + 0x8000_0000 ==> LastSlot(s, e) == -((s - e) / 14)
  {
    assert e < s ==> (e - s) % TWO32 == e - s + TWO32;
  }

  function SlotAt(s: uint32, m: nat): uint32 {
    (s + m * SEGMENT_INDEX_SIZE) % TWO32
  }

  /** A record of the segment index: the addresses it covers, and where its region is. */
  datatype Segment = Segment(first: nat, last: nat, len: nat, ptr: nat)

  function Decoded(b: Text): Segment
    requires |b| == SEGMENT_INDEX_SIZE
  {
    Segment(GetUint(b, 0), GetUint(b, 4), GetUshort(b, 8), GetUint(b, 10))
  }

  function SegmentAt(img: Text, s: uint32, m: nat): Option<Segment> {
    match ReadAt(img, SlotAt(s, m), SEGMENT_INDEX_SIZE)
    case None => None
    case Some(b) => Some(Decoded(b))
  }

  /** The slots of a block: none where the image ends. */
  type Slots = nat -> Option<Segment>

  function SlotsOf(img: Text, s: uint32): Slots {
    (m: nat) => SegmentAt(img, s, m)
  }

  predicate Covers(seg: Segment, ip: nat) {
    seg.first <= ip <= seg.last
  }

  // ----- The search

  datatype Hit = Absent | Unreadable | Found(seg: Segment)

  /** The binary search of slots `l` to `h`. */
  function Probe(table: Slots, ip: uint32, l: nat, h: int): Hit
    decreases h - l + 1
  {
    if l > h then Absent
    else
      var m: nat := (l + h) / 2;
      match table(m)
      case None => Unreadable
      case Some(seg) =>
        if ip < seg.first then Probe(table, ip, l, m - 1)
        else if ip > seg.last then Probe(table, ip, m + 1, h)
        else Found(seg)
  }

  /** The slots it reads, in their order. */
  function Probed(table: Slots, ip: uint32, l: nat, h: int): seq<nat>
    decreases h - l + 1
  {
    if l > h then []
    else
      var m: nat := (l + h) / 2;
      match table(m)
      case None => [m]
      case Some(seg) =>
        if ip < seg.first then [m] + Probed(table, ip, l, m - 1)
        else if ip > seg.last then [m] + Probed(table, ip, m + 1, h)
        else [m]
  }

  /** The linear scan of slots `k` to `h`. */
  function Scan(table: Slots, ip: uint32, k: nat, h: int): Hit
    decreases h - k + 1
  {
    if k > h then Absent
    else
      match table(k)
      case None => Unreadable
      case Some(seg) => if Covers(seg, ip) then Found(seg) else Scan(table, ip, k + 1, h)
  }

  /** Slots `l` up to but not including `n` can be read, and their ranges of addresses follow one another. */
  predicate Ordered(table: Slots, l: nat, n: int) {
    && (forall k :: l <= k < n ==> table(k).Some? && table(k).value.first <= table(k).value.last)
    && (forall j, k :: l <= j < k < n ==> table(j).value.last < table(k).value.first)
  }

  lemma {:induction false} ProbeEnd(table: Slots, ip: uint32, l: nat, h: int)
    requires l > h
    ensures Probe(table, ip, l, h) == Absent && Probed(table, ip, l, h) == []
  {
  }

  /** One turn of the search. */
  lemma {:induction false} ProbeStep(table: Slots, ip: uint32, l: nat, h: int)
    requires l <= h
    ensures var m: nat := (l + h) / 2;
            match table(m)
            case None => Probe(table, ip, l, h) == Unreadable && |Probed(table, ip, l, h)| == 1
            case Some(seg) =>
              if ip < seg.first then
                Probe(table, ip, l, h) == Probe(table, ip, l, m - 1)
                && |Probed(table, ip, l, h)| == 1 + |Probed(table, ip, l, m - 1)|
              else if ip > seg.last then
                Probe(table, ip, l, h) == Probe(table, ip, m + 1, h)
                && |Probed(table, ip, l, h)| == 1 + |Probed(table, ip, m + 1, h)|
              else Probe(table, ip, l, h) == Found(seg) && |Probed(table, ip, l, h)| == 1
  {
  }

  // ----- What the binary search finds

  /** On any image: what is found covers the address, and stands in one of the slots. */
  lemma {:induction false} FoundCovers(table: Slots, ip: uint32, l: nat, h: int) returns (m: nat)
    requires Probe(table, ip, l, h).Found?
    ensures l <= m <= h && table(m) == Some(Probe(table, ip, l, h).seg) && Covers(table(m).value, ip)
    decreases h - l + 1
  {
    m := (l + h) / 2;
    var seg := table(m).value;
    if ip < seg.first {
      m := FoundCovers(table, ip, l, m - 1);
    } else if ip > seg.last {
      m := FoundCovers(table, ip, m + 1, h);
    }
  }

  /**
   * A record that covers the address is found wherever it stands before slot `n`, if the slots before `n` are in order;
   * the search may go up to slot `n` itself, but does not read it.
   */
  lemma {:induction false} ProbeFinds(table: Slots, ip: uint32, l: nat, h: int, n: nat, c: nat)
    requires Ordered(table, 0, n) && l <= c <= h && c < n && h <= n && Covers(table(c).value, ip)
    ensures Probe(table, ip, l, h) == Found(table(c).value)
    ensures n !in Probed(table, ip, l, h)
    decreases h - l + 1
  {
    var m: nat := (l + h) / 2;
    var seg := table(m).value;
    OneBeforeOther(table, n, if m < c then m else c, if m < c then c else m);
    hide Ordered;
    if ip < seg.first {
      ProbeFinds(table, ip, l, m - 1, n, c);
    } else if ip > seg.last {
      ProbeFinds(table, ip, m + 1, h, n, c);
    }
  }

  /** Of two slots in order the first one ends before the second one starts. */
  lemma {:induction false} OneBeforeOther(table: Slots, n: nat, i: nat, j: nat)
    requires Ordered(table, 0, n) && i <= j < n
    ensures table(i).Some? && table(j).Some?
    ensures i < j ==> table(i).value.last < table(j).value.first && table(i).value.first <= table(i).value.last
  {
  }

  /** Without such a record nothing is found, in order or not, as long as the slots can be read. */
  lemma {:induction false} ProbeMisses(table: Slots, ip: uint32, l: nat, h: int)
    requires forall k :: l <= k <= h ==> table(k).Some? && !Covers(table(k).value, ip)
    ensures Probe(table, ip, l, h) == Absent
    decreases h - l + 1
  {
    if l <= h {
      var m: nat := (l + h) / 2;
      assert table(m).Some?;
      ProbeMisses(table, ip, l, m - 1);
      ProbeMisses(table, ip, m + 1, h);
    }
  }

  lemma {:induction false} ScanFinds(table: Slots, ip: uint32, k: nat, h: int, n: nat, c: nat)
    requires Ordered(table, 0, n) && k <= c <= h && c < n && Covers(table(c).value, ip)
    ensures Scan(table, ip, k, h) == Found(table(c).value)
    decreases h - k + 1
  {
    if k < c {
      assert table(k).value.last < table(c).value.first;
      ScanFinds(table, ip, k + 1, h, n, c);
    }
  }

  lemma {:induction false} ScanMisses(table: Slots, ip: uint32, k: nat, h: int)
    requires forall j :: k <= j <= h ==> table(j).Some? && !Covers(table(j).value, ip)
    ensures Scan(table, ip, k, h) == Absent
    decreases h - k + 1
  {
    if k <= h {
      assert table(k).Some?;
      ScanMisses(table, ip, k + 1, h);
    }
  }

  /** A record among the slots before `n` covers the address. */
  ghost predicate CoveredBefore(table: Slots, ip: uint32, n: nat) {
    exists c :: 0 <= c < n && table(c).Some? && Covers(table(c).value, ip)
  }

  /**
   * The binary search answers as a linear scan of the slots up to and including `h` does. When a record before slot `h`
   * covers the address this needs order only before `h`, and slot `h` is never read.
   */
  lemma {:induction false} SearchIsScan(table: Slots, ip: uint32, h: nat)
    requires Ordered(table, 0, h)
    ensures Ordered(table, 0, h + 1) || CoveredBefore(table, ip, h) ==> Probe(table, ip, 0, h) == Scan(table, ip, 0, h)
    ensures CoveredBefore(table, ip, h) ==>
            Probe(table, ip, 0, h).Found? && Covers(Probe(table, ip, 0, h).seg, ip) && h !in Probed(table, ip, 0, h)
  {
    hide Ordered, Probe, Probed, Scan;
    if CoveredBefore(table, ip, h) {
      var c :| 0 <= c < h && table(c).Some? && Covers(table(c).value, ip);
      ProbeFinds(table, ip, 0, h, h, c);
      ScanFinds(table, ip, 0, h, h, c);
    } else if Ordered(table, 0, h + 1) {
      LastSlotDecides(table, ip, h);
    }
  }

  lemma {:induction false} LastSlotDecides(table: Slots, ip: uint32, h: nat)
    requires Ordered(table, 0, h + 1) && !CoveredBefore(table, ip, h)
    ensures Probe(table, ip, 0, h) == Scan(table, ip, 0, h)
  {
    hide Probe, Probed, Scan;
    if Covers(table(h).value, ip) {
      ProbeFinds(table, ip, 0, h, h + 1, h);
      ScanFinds(table, ip, 0, h, h + 1, h);
    } else {
      assert forall k :: 0 <= k <= h ==> table(k).Some? && !Covers(table(k).value, ip);
      ProbeMisses(table, ip, 0, h);
      ScanMisses(table, ip, 0, h);
    }
  }

  // ----- The end slot does not belong to the block

  /** Above the records of the block the search ends at the end slot. */
  lemma {:induction false} AboveGoesToEnd(table: Slots, ip: uint32, l: nat, h: nat)
    requires l <= h && forall k :: 0 <= k < h ==> table(k).Some? && table(k).value.first <= ip && table(k).value.last < ip
    ensures Probe(table, ip, l, h) ==
            if table(h).None? then Unreadable else if Covers(table(h).value, ip) then Found(table(h).value) else Absent
    decreases h - l
  {
    if l < h {
      var m: nat := (l + h) / 2;
      assert table(m).Some? && table(m).value.last < ip;
      AboveGoesToEnd(table, ip, m + 1, h);
    } else if table(h).Some? {
      ProbeEnd(table, ip, h, h - 1);
      ProbeEnd(table, ip, h + 1, h);
    }
  }

  /** At or below the last record of the block it stays inside. */
  lemma {:induction false} BelowStaysInside(table: Slots, ip: uint32, l: nat, h: nat)
    requires l < h && ip <= (if table(h - 1).Some? then table(h - 1).value.last else 0)
    requires forall k :: 0 <= k < h ==> table(k).Some? && !Covers(table(k).value, ip)
    ensures Probe(table, ip, l, h) == Absent
    decreases h - l
  {
    var m: nat := (l + h) / 2;
    assert table(m).Some? && !Covers(table(m).value, ip);
    if ip < table(m).value.first {
      ProbeMisses(table, ip, l, m - 1);
    } else {
      BelowStaysInside(table, ip, m + 1, h);
    }
  }

  /** A record of the block covers the address, or the address is not above the block, or the end slot can be read and does not cover it. */
  ghost predicate EndSlotIsHarmless(table: Slots, ip: uint32, h: nat) {
    || CoveredBefore(table, ip, h)
    || (0 < h && table(h - 1).Some? && ip <= table(h - 1).value.last)
    || (table(h).Some? && !Covers(table(h).value, ip))
  }

  /** The search answers from the block's own slots alone exactly when the end slot is harmless. */
  lemma {:induction false} SearchIsOwnScan(table: Slots, ip: uint32, h: nat)
    requires Ordered(table, 0, h)
    ensures Probe(table, ip, 0, h) == Scan(table, ip, 0, h - 1) <==> EndSlotIsHarmless(table, ip, h)
    ensures !EndSlotIsHarmless(table, ip, h) ==>
            && Scan(table, ip, 0, h - 1) == Absent
            && Probe(table, ip, 0, h) == if table(h).None? then Unreadable else Found(table(h).value)
  {
    hide Probe, Scan;
    if CoveredBefore(table, ip, h) {
      var c :| 0 <= c < h && table(c).Some? && Covers(table(c).value, ip);
      ProbeFinds(table, ip, 0, h, h, c);
      ScanFinds(table, ip, 0, h - 1, h, c);
    } else {
      assert forall k :: 0 <= k < h ==> table(k).Some? && !Covers(table(k).value, ip);
      ScanMisses(table, ip, 0, h - 1);
      if 0 < h && ip <= table(h - 1).value.last {
        BelowStaysInside(table, ip, 0, h);
      } else {
        BlockIsBelow(table, ip, h);
        AboveGoesToEnd(table, ip, 0, h);
      }
    }
  }

  lemma {:induction false} BlockIsBelow(table: Slots, ip: uint32, h: nat)
    requires Ordered(table, 0, h) && (0 < h ==> table(h - 1).value.last < ip)
    ensures forall k :: 0 <= k < h ==> table(k).Some? && table(k).value.first <= ip && table(k).value.last < ip
  {
    forall k | 0 <= k < h ensures table(k).Some? && table(k).value.first <= ip && table(k).value.last < ip {
      assert k < h - 1 ==> table(k).value.last < table(h - 1).value.first;
    }
  }

  // ----- Records as bytes

  /** The bytes of a number, the lowest first. */
  function LittleEndian(n: nat, k: nat): (b: Text)
    ensures |b| == k
  {
    if k == 0 then [] else [n % 0x100] + LittleEndian(n / 0x100, k - 1)
  }

  /** Four bytes, or two, each with its weight. */
  lemma {:induction false} LittleEndianIs(n: nat)
    ensures n < TWO32 ==> LittleEndian(n, 4) == [n % 0x100, n / 0x100 % 0x100, n / 0x1_0000 % 0x100, n / 0x100_0000]
    ensures n < 0x1_0000 ==> LittleEndian(n, 2) == [n % 0x100, n / 0x100]
  {
    var a, b, c := n / 0x100, n / 0x100 / 0x100, n / 0x100 / 0x100 / 0x100;
    assert b == n / 0x1_0000 && c == n / 0x100_0000;
    assert LittleEndian(c, 1) == [c % 0x100];
    assert LittleEndian(b, 2) == [b % 0x100] + LittleEndian(c, 1);
    assert LittleEndian(a, 3) == [a % 0x100] + LittleEndian(b, 2);
    assert LittleEndian(a, 1) == [a % 0x100];
  }

  function Encoded(seg: Segment): (b: Text)
    ensures |b| == SEGMENT_INDEX_SIZE
  {
    LittleEndian(seg.first, 4) + LittleEndian(seg.last, 4) + LittleEndian(seg.len, 2) + LittleEndian(seg.ptr, 4)
  }

  predicate Encodable(seg: Segment) {
    seg.first <= seg.last < TWO32 && seg.len < 0x1_0000 && seg.ptr < TWO32
  }

  lemma {:induction false} NumbersAreRead(n: nat)
    ensures n < TWO32 ==> GetUint(LittleEndian(n, 4), 0) == n
    ensures n < 0x1_0000 ==> GetUshort(LittleEndian(n, 2), 0) == n
  {
    var b := LittleEndian(n, 4);
    assert b[0] == n % 0x100 && b[1..] == LittleEndian(n / 0x100, 3);
    assert b[1..][0] == n / 0x100 % 0x100 && b[1..][1..] == LittleEndian(n / 0x100 / 0x100, 2);
    assert b[1..][1..][0] == n / 0x100 / 0x100 % 0x100 && b[1..][1..][1..] == LittleEndian(n / 0x100 / 0x100 / 0x100, 1);
    assert b[1..][1..][1..][0] == n / 0x100 / 0x100 / 0x100 % 0x100;
    var d := LittleEndian(n, 2);
    assert d[1..] == LittleEndian(n / 0x100, 1);
    assert d[1..][0] == n / 0x100 % 0x100;
  }

  lemma {:induction false} NumberInside(a: Text, b: Text, c: Text)
    ensures |b| == 4 ==> GetUint(a + b + c, |a|) == GetUint(b, 0)
    ensures |b| == 2 ==> GetUshort(a + b + c, |a|) == GetUshort(b, 0)
  {
    assert forall i :: 0 <= i < |b| ==> (a + b + c)[|a| + i] == b[i];
  }

  /** A record is decoded from the bytes that encode it. */
  lemma {:induction false} EncodedIsDecoded(seg: Segment)
    requires Encodable(seg)
    ensures Decoded(Encoded(seg)) == seg
  {
    hide GetUint, GetUshort, LittleEndian;
    var first, last, len, ptr := LittleEndian(seg.first, 4), LittleEndian(seg.last, 4), LittleEndian(seg.len, 2), LittleEndian(seg.ptr, 4);
    NumbersAreRead(seg.first);
    NumbersAreRead(seg.last);
    NumbersAreRead(seg.len);
    NumbersAreRead(seg.ptr);
    var b := Encoded(seg);
    FourParts(first, last, len, ptr);
    NumberInside([], first, last + len + ptr);
    NumberInside(first, last, len + ptr);
    NumberInside(first + last, len, ptr);
    NumberInside(first + last + len, ptr, []);
  }

  lemma {:induction false} FourParts(a: Text, b: Text, c: Text, d: Text)
    ensures a + b + c + d == [] + a + (b + c + d) == a + b + (c + d) == (a + b) + c + d == (a + b + c) + d + []
  {
  }

  /** The records stand in the image one behind the other, from `s` on. */
  predicate Written(img: Text, s: nat, records: seq<Segment>) {
    forall i :: 0 <= i < |records| ==> At(img, s + i * SEGMENT_INDEX_SIZE, Encoded(records[i]))
  }

  predicate InOrder(records: seq<Segment>) {
    && (forall i :: 0 <= i < |records| ==> Encodable(records[i]))
    && (forall i, j :: 0 <= i < j < |records| ==> records[i].last < records[j].first)
  }

  lemma {:induction false} SlotHolds(img: Text, s: uint32, m: nat, seg: Segment)
    requires |img| < TWO32 && Encodable(seg) && At(img, s + m * SEGMENT_INDEX_SIZE, Encoded(seg))
    ensures SlotsOf(img, s)(m) == Some(seg)
  {
    EncodedIsDecoded(seg);
    hide Encoded, Decoded;
  }

  lemma {:induction false} SlotIsRecord(img: Text, s: uint32, records: seq<Segment>, i: nat)
    requires |img| < TWO32 && Written(img, s, records) && i < |records| && Encodable(records[i])
    ensures SlotsOf(img, s)(i) == Some(records[i])
  {
    assert At(img, s + i * SEGMENT_INDEX_SIZE, Encoded(records[i]));
    SlotHolds(img, s, i, records[i]);
  }

  lemma {:induction false} RecordsAreOrdered(img: Text, s: uint32, records: seq<Segment>)
    requires |img| < TWO32 && Written(img, s, records) && InOrder(records)
    ensures Ordered(SlotsOf(img, s), 0, |records|)
    ensures forall i :: 0 <= i < |records| ==> SlotsOf(img, s)(i) == Some(records[i])
  {
    var table := SlotsOf(img, s);
    forall i | 0 <= i < |records| ensures table(i) == Some(records[i]) && records[i].first <= records[i].last {
      SlotIsRecord(img, s, records, i);
    }
    hide SlotsOf, Written, Encodable;
  }

  lemma {:induction false} LastSlotIsCount(s: uint32, n: nat)
    requires s + n * SEGMENT_INDEX_SIZE < TWO32 && n * SEGMENT_INDEX_SIZE <= 0x7FFF_FFFF
    ensures LastSlot(s, s + n * SEGMENT_INDEX_SIZE) == n
  {
  }

  /**
   * In an image in which a block of records in order stands, the search finds the record of an address by its pointers to
   * the start and behind the end of the block, and does not read what stands behind the end.
   */
  lemma {:induction false} WrittenRecordIsFound(img: Text, s: uint32, records: seq<Segment>, ip: uint32, c: nat)
    requires |img| < TWO32 && s + |records| * SEGMENT_INDEX_SIZE < TWO32 && |records| * SEGMENT_INDEX_SIZE <= 0x7FFF_FFFF
    requires Written(img, s, records) && InOrder(records) && c < |records| && Covers(records[c], ip)
    ensures var h := LastSlot(s, s + |records| * SEGMENT_INDEX_SIZE);
            && h == |records|
            && Probe(SlotsOf(img, s), ip, 0, h) == Found(records[c])
            && |records| !in Probed(SlotsOf(img, s), ip, 0, h)
  {
    hide SlotsOf, Probe, Probed, Written, InOrder, LastSlot, Ordered;
    RecordsAreOrdered(img, s, records);
    LastSlotIsCount(s, |records|);
    ProbeFinds(SlotsOf(img, s), ip, 0, |records|, |records|, c);
  }

  lemma {:induction false} EndOfImage(img: Text, s: uint32, n: nat)
    requires s + n * SEGMENT_INDEX_SIZE == |img| < TWO32
    ensures SlotsOf(img, s)(n) == None
  {
  }

  lemma {:induction false} RecordsAreBelow(img: Text, s: uint32, records: seq<Segment>, ip: uint32)
    requires |img| < TWO32 && Written(img, s, records) && InOrder(records) && forall i :: 0 <= i < |records| ==> records[i].last < ip
    ensures forall k :: 0 <= k < |records| ==>
              SlotsOf(img, s)(k).Some? && SlotsOf(img, s)(k).value.first <= ip && SlotsOf(img, s)(k).value.last < ip
    ensures Scan(SlotsOf(img, s), ip, 0, |records| - 1) == Absent
  {
    RecordsAreOrdered(img, s, records);
    hide SlotsOf, Scan, Written, InOrder;
    ScanMisses(SlotsOf(img, s), ip, 0, |records| - 1);
    BlockIsBelow(SlotsOf(img, s), ip, |records|);
  }

  /** Where the image ends with the block, an address above its records is answered with an error instead of nothing. */
  lemma {:induction false} AboveLastBlockFails(img: Text, s: uint32, records: seq<Segment>, ip: uint32)
    requires s + |records| * SEGMENT_INDEX_SIZE == |img| < TWO32
    requires Written(img, s, records) && InOrder(records) && forall i :: 0 <= i < |records| ==> records[i].last < ip
    ensures Scan(SlotsOf(img, s), ip, 0, |records| - 1) == Absent
    ensures Probe(SlotsOf(img, s), ip, 0, |records|) == Unreadable
  {
    RecordsAreBelow(img, s, records, ip);
    EndOfImage(img, s, |records|);
    hide SlotsOf, Probe, Scan, Written, InOrder;
    AboveGoesToEnd(SlotsOf(img, s), ip, 0, |records|);
  }

  /** Where a record behind the block covers such an address, it is answered with the region of that record. */
  lemma {:induction false} NextBlockAnswers(img: Text, s: uint32, records: seq<Segment>, next: Segment, ip: uint32)
    requires |img| < TWO32 && At(img, s + |records| * SEGMENT_INDEX_SIZE, Encoded(next)) && Encodable(next) && Covers(next, ip)
    requires Written(img, s, records) && InOrder(records) && forall i :: 0 <= i < |records| ==> records[i].last < ip
    ensures Scan(SlotsOf(img, s), ip, 0, |records| - 1) == Absent
    ensures Probe(SlotsOf(img, s), ip, 0, |records|) == Found(next)
  {
    RecordsAreBelow(img, s, records, ip);
    SlotHolds(img, s, |records|, next);
    hide SlotsOf, Probe, Scan, Written, InOrder, Encodable, Encoded, At;
    AboveGoesToEnd(SlotsOf(img, s), ip, 0, |records|);
  }

  // ----- How many slots it reads

  /** At most floor(log2 n) + 1 of n slots are read, whatever the image holds. */
  lemma {:induction false} ProbesAreFew(table: Slots, ip: uint32, l: nat, h: int)
    ensures |Probed(table, ip, l, h)| <= if l <= h then FloorLog2(h - l + 1) + 1 else 0
    decreases h - l + 1
  {
    hide FloorLog2, Pow2;
    if l <= h {
      var m: nat := (l + h) / 2;
      ProbesAreFew(table, ip, l, m - 1);
      ProbesAreFew(table, ip, m + 1, h);
      LogOfHalf(h - l + 1, m - l);
      LogOfHalf(h - l + 1, h - m);
    }
  }

  // ----- Whole searches

  /** What xdb_search hands back: a region, or an error code. */
  datatype Answer = Region(text: Text) | Error(code: int)

  /** The region behind a hit; a length beyond INT_MAX is taken for the int of its low bits. */
  function RegionOf(img: Text, hit: Hit, length: nat): (r: Answer)
    ensures r.Region? ==> r.text == [] || |r.text| < length
  {
    match hit
    case Unreadable => Error(22)
    case Absent => Region([])
    case Found(seg) =>
      if seg.len == 0 then Region([])
      else if seg.len >= Int32(length % TWO32) then Error(1)
      else
        match ReadAt(img, seg.ptr, seg.len)
        case None => Error(32)
        case Some(text) => Region(text)
  }

  /** The block of slots that the vector index `v` gives an address, from `base` on. */
  function BlockStart(v: Text, base: nat, ip: uint32): uint32
    requires base + VECTOR_INDEX_LENGTH <= |v|
  {
    GetUint(v, base + VectorOffset(ip))
  }

  function BlockEnd(v: Text, base: nat, ip: uint32): uint32
    requires base + VECTOR_INDEX_LENGTH <= |v|
  {
    GetUint(v, base + VectorOffset(ip) + 4)
  }

  function InBlock(img: Text, s: uint32, e: uint32, ip: uint32, length: nat): Answer {
    RegionOf(img, Probe(SlotsOf(img, s), ip, 0, LastSlot(s, e)), length)
  }

  /** A search that reads everything from the image. */
  function SearchImage(img: Text, ip: uint32, length: nat): Answer {
    match ReadAt(img, HEADER_LENGTH + VectorOffset(ip), VECTOR_INDEX_SIZE)
    case None => Error(12)
    case Some(b) => InBlock(img, GetUint(b, 0), GetUint(b, 4), ip, length)
  }

  /** The answer needs bytes that the image does not have. */
  predicate RunsOut(r: Answer) {
    r == Error(12) || r == Error(22) || r == Error(32)
  }

  /** How often fseek and fread are called behind the vector index. */
  function ReadsInBlock(img: Text, s: uint32, e: uint32, ip: uint32, length: nat): nat {
    var hit := Probe(SlotsOf(img, s), ip, 0, LastSlot(s, e));
    var r := RegionOf(img, hit, length);
    |Probed(SlotsOf(img, s), ip, 0, LastSlot(s, e))| + if r == Error(32) || (r.Region? && r.text != []) then 1 else 0
  }

  // ----- Images with a block for an address

  /**
   * The vector index of the image points, for the upper half of the address, at the start of a block of records in order and
   * behind its end.
   */
  predicate HoldsBlock(img: Text, ip: uint32, s: uint32, records: seq<Segment>) {
    && |img| < TWO32 && s + 14 * |records| < TWO32 && 14 * |records| <= 0x7FFF_FFFF
    && At(img, 256 + 8 * (ip / 0x1_0000), LittleEndian(s, 4) + LittleEndian(s + 14 * |records|, 4))
    && Written(img, s, records) && InOrder(records)
  }

  lemma {:induction false} EntryIsRead(img: Text, ip: uint32, s: uint32, records: seq<Segment>, length: nat)
    requires HoldsBlock(img, ip, s, records)
    ensures SearchImage(img, ip, length) == RegionOf(img, Probe(SlotsOf(img, s), ip, 0, |records|), length)
  {
    var at, e := HEADER_LENGTH + VectorOffset(ip), s + 14 * |records|;
    VectorIsRowMajor(ip);
    LastSlotIsCount(s, |records|);
    var a, b := LittleEndian(s, 4), LittleEndian(e, 4);
    hide GetUint, LittleEndian, VectorOffset, RegionOf, Probe, LastSlot, Written, InOrder;
    assert ReadAt(img, at, VECTOR_INDEX_SIZE) == Some(a + b);
    NumbersAreRead(s);
    NumbersAreRead(e);
    assert [] + a + b == a + b && a + b + [] == a + b;
    NumberInside([], a, b);
    NumberInside(a, b, []);
  }

  /**
   * A record of the block that covers the address is answered with the bytes of the image that it points at; with an error if
   * these do not fit the buffer, whose length is taken for an int, or are not all there.
   */
  lemma {:induction false} RecordIsAnswered(img: Text, ip: uint32, s: uint32, records: seq<Segment>, c: nat, length: nat)
    requires HoldsBlock(img, ip, s, records)
    requires c < |records| && records[c].first <= ip <= records[c].last
    ensures var len, ptr := records[c].len, records[c].ptr;
            SearchImage(img, ip, length) ==
            if len == 0 then Region([])
            else if length % 0x1_0000_0000 >= 0x8000_0000 || len >= length % 0x1_0000_0000 then Error(1)
            else if ptr + len > |img| then Error(32)
            else Region(img[ptr..ptr + len])
  {
    hide SearchImage, SlotsOf, HoldsBlock, RegionOf, Probe;
    EntryIsRead(img, ip, s, records, length);
    BlockRecordIsFound(img, ip, s, records, c);
    RegionOfRecord(img, records[c], length);
  }

  lemma {:induction false} BlockRecordIsFound(img: Text, ip: uint32, s: uint32, records: seq<Segment>, c: nat)
    requires HoldsBlock(img, ip, s, records) && c < |records| && Covers(records[c], ip)
    ensures Probe(SlotsOf(img, s), ip, 0, |records|) == Found(records[c])
  {
    hide SlotsOf, Probe, Probed, Written, InOrder, LastSlot, At;
    WrittenRecordIsFound(img, s, records, ip, c);
  }

  lemma {:induction false} RegionOfRecord(img: Text, seg: Segment, length: nat)
    ensures RegionOf(img, Found(seg), length) ==
            if seg.len == 0 then Region([])
            else if length % 0x1_0000_0000 >= 0x8000_0000 || seg.len >= length % 0x1_0000_0000 then Error(1)
            else if seg.ptr + seg.len > |img| then Error(32)
            else Region(img[seg.ptr..seg.ptr + seg.len])
  {
  }

  /** At or below the last record of the block an address that no record covers has an empty region. */
  lemma {:induction false} UncoveredIsEmpty(img: Text, ip: uint32, s: uint32, records: seq<Segment>, length: nat)
    requires HoldsBlock(img, ip, s, records) && records != [] && ip <= records[|records| - 1].last
    requires forall i :: 0 <= i < |records| ==> !(records[i].first <= ip <= records[i].last)
    ensures SearchImage(img, ip, length) == Region([])
  {
    EntryIsRead(img, ip, s, records, length);
    RecordsAreOrdered(img, s, records);
    hide SearchImage, SlotsOf, Probe, Written, InOrder, Ordered;
    BelowStaysInside(SlotsOf(img, s), ip, 0, |records|);
  }

  /** The image is too short for the vector index of the address if and only if the code is 12. */
  lemma {:induction false} ShortIndexFails(img: Text, ip: uint32, length: nat)
    ensures SearchImage(img, ip, length) == Error(12) <==> |img| < 256 + 8 * (ip / 0x1_0000) + 8
  {
    VectorIsRowMajor(ip);
    hide VectorOffset, GetUint, Probe;
  }

  /** With a code of 22 some slot from the start of the block to its end pointer reaches beyond the end of the image. */
  lemma {:induction false} MissingSlotFails(img: Text, ip: uint32, s: uint32, records: seq<Segment>, length: nat)
    requires HoldsBlock(img, ip, s, records)
    ensures SearchImage(img, ip, length) == Error(22) <==>
            (forall i :: 0 <= i < |records| ==> records[i].last < ip) && s + 14 * |records| + 14 > |img|
  {
    hide SearchImage, HoldsBlock, RegionOf, Probe, SlotsOf;
    EntryIsRead(img, ip, s, records, length);
    BlockIsUnread(img, ip, s, records);
    UnreadableIs22(img, Probe(SlotsOf(img, s), ip, 0, |records|), length);
  }

  lemma {:induction false} UnreadableIs22(img: Text, hit: Hit, length: nat)
    ensures RegionOf(img, hit, length) == Error(22) <==> hit == Unreadable
  {
  }

  lemma {:induction false} BlockIsUnread(img: Text, ip: uint32, s: uint32, records: seq<Segment>)
    requires HoldsBlock(img, ip, s, records)
    ensures Probe(SlotsOf(img, s), ip, 0, |records|) == Unreadable <==>
            (forall i :: 0 <= i < |records| ==> records[i].last < ip) && s + 14 * |records| + 14 > |img|
  {
    RecordsAreOrdered(img, s, records);
    EndIsUnread(img, s, |records|);
    var table := SlotsOf(img, s);
    hide HoldsBlock, SlotsOf, Probe;
    if forall i :: 0 <= i < |records| ==> records[i].last < ip {
      BlockIsBelow(table, ip, |records|);
      AboveGoesToEnd(table, ip, 0, |records|);
    } else {
      var i :| 0 <= i < |records| && ip <= records[i].last;
      ProbeInside(table, ip, |records|, i);
    }
  }

  lemma {:induction false} EndIsUnread(img: Text, s: uint32, n: nat)
    requires s + n * SEGMENT_INDEX_SIZE < TWO32
    ensures SlotsOf(img, s)(n) == None <==> s + 14 * n + 14 > |img|
  {
  }

  lemma {:induction false} ProbeInside(table: Slots, ip: uint32, h: nat, i: nat)
    requires Ordered(table, 0, h) && i < h && ip <= table(i).value.last
    ensures Probe(table, ip, 0, h) != Unreadable
  {
    hide Probe, Probed;
    if CoveredBefore(table, ip, h) {
      SearchIsScan(table, ip, h);
    } else {
      OneBeforeOther(table, h, i, h - 1);
      BelowStaysInside(table, ip, 0, h);
    }
  }
}
