/**
 The byte layout of a slotted page: a 12-byte header (LSN, tuple count, free pointer), a
 slot array that grows up, and tuple bytes that grow down from the end of the page. All
 header and slot fields are little-endian, and the 16-bit arithmetic is written out.
 */
module SlottedPage {
  import opened Config

  const LSN_OFFSET: nat := 0
  const TUPLE_COUNT_OFFSET: nat := 8
  const FREE_SPACE_OFFSET: nat := 10
  const HEADER_SIZE: nat := 12
  const SLOT_SIZE: nat := 4

  // ---------------------------------------------------------------- bytes

  /** What memcpy does to the page, one byte after the other. */
  function Copy(d: PageData, off: nat, bytes: seq<Byte>): PageData
    requires off + |bytes| <= PAGE_SIZE
    decreases bytes
  {
    if bytes == [] then d else Copy(d[off := bytes[0]], off + 1, bytes[1..])
  }

  lemma {:induction false} CopyAt(d: PageData, off: nat, bytes: seq<Byte>, k: nat)
    requires off + |bytes| <= PAGE_SIZE && k < PAGE_SIZE
    ensures Copy(d, off, bytes)[k] == if off <= k < off + |bytes| then bytes[k - off] else d[k]
    decreases bytes
  {
    if bytes == [] {
    } else {
      CopyAt(d[off := bytes[0]], off + 1, bytes[1..], k);
    }
  }

  function Bytes16(v: nat): seq<Byte> { [v % 256, v / 256 % 256] }

  function U16(d: PageData, off: nat): nat
    requires off + 2 <= PAGE_SIZE
  {
    var lo: int, hi: int := d[off], d[off + 1];
    lo + 256 * hi
  }

  lemma Bytes16RoundTrip(v: nat)
    requires v < 0x1_0000
    ensures Bytes16(v)[0] as int + 256 * (Bytes16(v)[1] as int) == v
  {}

  /** The n low base-256 digits of v, lowest first. */
  function ToDigits(v: nat, n: nat): (r: seq<Byte>)
    ensures |r| == n
    decreases n
  {
    if n == 0 then [] else [v % 256] + ToDigits(v / 256, n - 1)
  }

  function Digits(d: PageData, off: nat, n: nat): nat
    requires off + n <= PAGE_SIZE
    decreases n
  {
    if n == 0 then 0
    else
      var lo: int := d[off];
      lo + 256 * Digits(d, off + 1, n - 1)
  }

  function Pow256(n: nat): nat {
    if n == 0 then 1 else 256 * Pow256(n - 1)
  }

  lemma {:induction false} DigitsRoundTrip(d: PageData, off: nat, v: nat, n: nat)
    requires off + n <= PAGE_SIZE && v < Pow256(n)
    requires forall k: nat :: k < n ==> d[off + k] == ToDigits(v, n)[k]
    ensures Digits(d, off, n) == v
    decreases n
  {
    if n == 0 {
    } else {
      var rest := ToDigits(v / 256, n - 1);
      forall k: nat | k < n - 1 ensures d[off + 1 + k] == rest[k] {
        assert d[off + (k + 1)] == ToDigits(v, n)[k + 1];
      }
      DigitsRoundTrip(d, off + 1, v / 256, n - 1);
      assert d[off + 0] == ToDigits(v, n)[0];
    }
  }

  lemma {:induction false} DigitsFrame(d: PageData, d': PageData, off: nat, n: nat)
    requires off + n <= PAGE_SIZE && forall k: nat :: off <= k < off + n ==> d'[k] == d[k]
    ensures Digits(d', off, n) == Digits(d, off, n)
    decreases n
  {
    if n == 0 {
    } else {
      DigitsFrame(d, d', off + 1, n - 1);
    }
  }

  lemma LSNRange(v: nat)
    requires v < 0x1_0000_0000_0000_0000
    ensures v < Pow256(8)
  {
    assert Pow256(3) == 256 * Pow256(2) && Pow256(5) == 256 * Pow256(4) && Pow256(7) == 256 * Pow256(6);
  }

  function TupleCount(d: PageData): nat { U16(d, TUPLE_COUNT_OFFSET) }

  function FreePointer(d: PageData): nat { U16(d, FREE_SPACE_OFFSET) }

  function LSN(d: PageData): nat { Digits(d, LSN_OFFSET, 8) }

  function SetLSN(d: PageData, lsn: nat): PageData { Copy(d, LSN_OFFSET, ToDigits(lsn, 8)) }

  // ---------------------------------------------------------------- operations

  function Init(d: PageData): PageData {
    var d1 := Copy(ZeroPage(), LSN_OFFSET, ToDigits(0, 8));
    var d2 := Copy(d1, TUPLE_COUNT_OFFSET, Bytes16(0));
    Copy(d2, FREE_SPACE_OFFSET, Bytes16(PAGE_SIZE))
  }

  /** Overrun: the source would copy past the end of the page. */
  datatype InsertResult = Rejected | Inserted(page: PageData, slot: nat) | Overrun

  /** Where slot i starts: after the header and i slots of four bytes. */
  function SlotAt(i: nat): nat { HEADER_SIZE + 4 * i }

  /** The offset of a slot, cut to 16 bits as in the source. */
  function SlotOffset(slot: nat): nat { (SlotAt(slot)) % 0x1_0000 }

  /** Where an insert puts its tuple and its slot, and the new tuple count. */
  datatype Plan = Refuse | OutOfPage | Place(start: nat, at: nat, count: nat)

  /** The arithmetic of an insert, with every intermediate cut to 16 bits as in the source. */
  function PlanInsert(count: nat, free: nat, size: nat): (p: Plan)
    ensures p.Place? ==> p.start + size <= PAGE_SIZE && p.at + SLOT_SIZE <= PAGE_SIZE
  {
    if size > 0xFFFF then Refuse
    else
      var required := (size + SLOT_SIZE) % 0x1_0000;
      var used := SlotOffset(count);
      if free - used < required then Refuse
      else
        var start := (free - size) % 0x1_0000;
        if start + size > PAGE_SIZE || used + SLOT_SIZE > PAGE_SIZE then OutOfPage
        else Place(start, used, (count + 1) % 0x1_0000)
  }

  function InsertTuple(d: PageData, tuple: seq<Byte>): InsertResult {
    match PlanInsert(TupleCount(d), FreePointer(d), |tuple|)
    case Refuse => Rejected
    case OutOfPage => Overrun
    case Place(start, at, count) => Inserted(WriteTuple(d, tuple, start, at, count), TupleCount(d))
  }

  /** The five copies of a successful insert: free pointer, tuple, both halves of the slot,
      tuple count. */
  function WriteTuple(d: PageData, tuple: seq<Byte>, start: nat, at: nat, count: nat): PageData
    requires start + |tuple| <= PAGE_SIZE && at + SLOT_SIZE <= PAGE_SIZE
  {
    var d1 := Copy(d, FREE_SPACE_OFFSET, Bytes16(start));
    var d2 := Copy(d1, start, tuple);
    var d3 := Copy(d2, at, Bytes16(start));
    var d4 := Copy(d3, at + 2, Bytes16(|tuple|));
    Copy(d4, TUPLE_COUNT_OFFSET, Bytes16(count))
  }

  /** The slot lies inside the page. */
  predicate SlotInPage(d: PageData, slot: nat) {
    slot < TupleCount(d) ==> SlotOffset(slot) + SLOT_SIZE <= PAGE_SIZE
  }

  /** So do the bytes it names. */
  predicate Readable(d: PageData, slot: nat) {
    slot < TupleCount(d) ==>
      && SlotInPage(d, slot)
      && U16(d, SlotOffset(slot)) + U16(d, SlotOffset(slot) + 2) <= PAGE_SIZE
  }

  /** A slot of size zero is a tombstone. */
  function GetTuple(d: PageData, slot: nat): Option<seq<Byte>>
    requires Readable(d, slot)
  {
    if slot >= TupleCount(d) then None
    else
      var off, size := U16(d, SlotOffset(slot)), U16(d, SlotOffset(slot) + 2);
      if size == 0 then None else Some(d[off..off + size])
  }

  /** Deleting reads no tuple bytes. */
  function MarkDelete(d: PageData, slot: nat): Option<PageData>
    requires SlotInPage(d, slot)
  {
    if slot >= TupleCount(d) then None
    else Some(Copy(d, SlotOffset(slot) + 2, Bytes16(0)))
  }

  // ---------------------------------------------------------------- what a page means

  /** A tuple that was accepted, and whether it is still visible. */
  datatype Row = Row(bytes: seq<Byte>, live: bool)

  /** The bytes of the first i accepted tuples, deleted ones included. */
  function UsedTo(rows: seq<Row>, i: nat): nat
    requires i <= |rows|
  {
    if i == 0 then 0 else UsedTo(rows, i - 1) + |rows[i - 1].bytes|
  }

  function Used(rows: seq<Row>): nat { UsedTo(rows, |rows|) }

  /** Where tuple i starts: tuples are laid down from the end of the page without a gap. */
  function Start(rows: seq<Row>, i: nat): int
    requires i < |rows|
  {
    PAGE_SIZE - UsedTo(rows, i + 1)
  }

  predicate Fits(rows: seq<Row>) {
    SlotAt(|rows|) + Used(rows) <= PAGE_SIZE
  }

  ghost predicate SlotHolds(d: PageData, i: nat, row: Row, start: int)
    requires SlotAt(i) + SLOT_SIZE <= PAGE_SIZE
  {
    && 0 <= start && start + |row.bytes| <= PAGE_SIZE
    && U16(d, SlotAt(i)) == start
    && U16(d, SlotAt(i) + 2) == (if row.live then |row.bytes| else 0)
    && forall k :: 0 <= k < |row.bytes| ==> d[start + k] == row.bytes[k]
  }

  ghost predicate SlotsHold(d: PageData, rows: seq<Row>)
    requires SlotAt(|rows|) <= PAGE_SIZE
  {
    forall i: nat {:trigger SlotHolds(d, i, rows[i], Start(rows, i))} ::
      i < |rows| ==> SlotHolds(d, i, rows[i], Start(rows, i))
  }

  ghost predicate HeaderHolds(d: PageData, rows: seq<Row>, lsn: nat) {
    Fits(rows) && TupleCount(d) == |rows| && FreePointer(d) == PAGE_SIZE - Used(rows) && LSN(d) == lsn
  }

  /** The bytes d are a page with these rows and this LSN. */
  ghost predicate Represents(d: PageData, rows: seq<Row>, lsn: nat) {
    HeaderHolds(d, rows, lsn) && SlotsHold(d, rows)
  }

  /** The layout of a row depends only on the bytes of the rows up to it. */
  lemma {:induction false} UsedToLocal(rows: seq<Row>, rows': seq<Row>, i: nat)
    requires i <= |rows| && i <= |rows'|
    requires forall j :: 0 <= j < i ==> rows[j].bytes == rows'[j].bytes
    ensures UsedTo(rows, i) == UsedTo(rows', i)
  {
    if i == 0 {
    } else {
      UsedToLocal(rows, rows', i - 1);
    }
  }

  lemma {:induction false} UsedToMonotone(rows: seq<Row>, i: nat, j: nat)
    requires i <= j <= |rows|
    ensures UsedTo(rows, i) <= UsedTo(rows, j)
    decreases j
  {
    if i < j { UsedToMonotone(rows, i, j - 1); }
  }

  lemma UsedAppend(rows: seq<Row>, row: Row)
    ensures Used(rows + [row]) == Used(rows) + |row.bytes|
  {
    UsedToLocal(rows, rows + [row], |rows|);
  }

  lemma StartInPage(rows: seq<Row>, i: nat)
    requires i < |rows|
    ensures PAGE_SIZE - Used(rows) <= Start(rows, i) && Start(rows, i) + |rows[i].bytes| <= PAGE_SIZE
  {
    UsedToMonotone(rows, i + 1, |rows|);
  }

  /** Space is conserved on every page: the slot array ends at or before the free pointer, and
      the accepted bytes, deleted ones too, fill exactly the range above it. */
  lemma SpaceConserved(d: PageData, rows: seq<Row>, lsn: nat)
    requires Represents(d, rows, lsn)
    ensures TupleCount(d) == |rows| && SlotAt(TupleCount(d)) <= FreePointer(d)
    ensures FreePointer(d) + Used(rows) == PAGE_SIZE
    ensures forall i: nat :: i < |rows| ==>
              FreePointer(d) <= U16(d, SlotAt(i)) && U16(d, SlotAt(i)) + |rows[i].bytes| <= PAGE_SIZE
  {
    forall i: nat | i < |rows|
      ensures FreePointer(d) <= U16(d, SlotAt(i)) && U16(d, SlotAt(i)) + |rows[i].bytes| <= PAGE_SIZE
    {
      StartInPage(rows, i);
      assert SlotHolds(d, i, rows[i], Start(rows, i));
    }
  }

  /** And tuples never overlap. */
  lemma TuplesDisjoint(d: PageData, rows: seq<Row>, lsn: nat, i: nat, j: nat)
    requires Represents(d, rows, lsn) && i < j < |rows|
    ensures var start_i, start_j := U16(d, SlotAt(i)), U16(d, SlotAt(j));
            && FreePointer(d) <= start_j && start_j + |rows[j].bytes| <= start_i
            && start_i + |rows[i].bytes| <= PAGE_SIZE
  {
    StartInPage(rows, i);
    StartInPage(rows, j);
    UsedToMonotone(rows, i + 1, j);
    assert SlotHolds(d, i, rows[i], Start(rows, i)) && SlotHolds(d, j, rows[j], Start(rows, j));
  }

  // ---------------------------------------------------------------- refinement, one step

  lemma {:induction false} ZeroDigits(n: nat, k: nat)
    requires k < n
    ensures ToDigits(0, n)[k] == 0
    decreases n
  {
    if k == 0 {
    } else {
      ZeroDigits(n - 1, k - 1);
    }
  }

  lemma InitBytes(d: PageData, k: nat)
    requires k < PAGE_SIZE
    ensures Init(d)[k] == if k == 11 then 32 else 0
  {
    var d1 := Copy(ZeroPage(), LSN_OFFSET, ToDigits(0, 8));
    var d2 := Copy(d1, TUPLE_COUNT_OFFSET, Bytes16(0));
    CopyAt(ZeroPage(), LSN_OFFSET, ToDigits(0, 8), k);
    if k < 8 { ZeroDigits(8, k); }
    CopyAt(d1, TUPLE_COUNT_OFFSET, Bytes16(0), k);
    CopyAt(d2, FREE_SPACE_OFFSET, Bytes16(PAGE_SIZE), k);
  }

  lemma InitRepresents(d: PageData)
    ensures Represents(Init(d), [], 0)
  {
    forall k: nat | k < 12 ensures Init(d)[k] == if k == 11 then 32 else 0 { InitBytes(d, k); }
    forall k: nat | k < 8 ensures Init(d)[LSN_OFFSET + k] == ToDigits(0, 8)[k] { ZeroDigits(8, k); }
    LSNRange(0);
    DigitsRoundTrip(Init(d), LSN_OFFSET, 0, 8);
  }

  /** A slot whose bytes are untouched still holds its row. */
  lemma SlotFrame(d: PageData, d': PageData, i: nat, row: Row, start: int)
    requires SlotAt(i) + SLOT_SIZE <= PAGE_SIZE && SlotHolds(d, i, row, start)
    requires forall k :: SlotAt(i) <= k < SlotAt(i) + SLOT_SIZE ==> d'[k] == d[k]
    requires forall k :: start <= k < start + |row.bytes| ==> d'[k] == d[k]
    ensures SlotHolds(d', i, row, start)
  {}

  lemma SetLSNRepresents(d: PageData, rows: seq<Row>, lsn: nat, lsn': nat)
    requires Represents(d, rows, lsn) && lsn' < 0x1_0000_0000_0000_0000
    ensures Represents(SetLSN(d, lsn'), rows, lsn')
  {
    var d' := SetLSN(d, lsn');
    forall k: nat | k < PAGE_SIZE ensures d'[k] == if k < 8 then ToDigits(lsn', 8)[k] else d[k] {
      CopyAt(d, LSN_OFFSET, ToDigits(lsn', 8), k);
    }
    LSNRange(lsn');
    DigitsRoundTrip(d', LSN_OFFSET, lsn', 8);
    SlotsFrame(d, d', rows);
  }

  /** Slots and tuples survive when only bytes below 12 or between them change. */
  lemma SlotsFrame(d: PageData, d': PageData, rows: seq<Row>)
    requires Fits(rows) && SlotsHold(d, rows)
    requires forall k: nat :: (12 <= k < SlotAt(|rows|) || PAGE_SIZE - Used(rows) <= k < PAGE_SIZE) ==> d'[k] == d[k]
    ensures SlotsHold(d', rows)
  {
    forall i: nat | i < |rows| ensures SlotHolds(d', i, rows[i], Start(rows, i)) {
      StartInPage(rows, i);
      assert SlotHolds(d, i, rows[i], Start(rows, i));
      SlotFrame(d, d', i, rows[i], Start(rows, i));
    }
  }

  /** What an insert writes, byte by byte, and that it writes nothing else. */
  lemma WriteTupleBytes(d: PageData, tuple: seq<Byte>, start: nat, at: nat, count: nat, k: nat)
    requires start + |tuple| <= PAGE_SIZE && k < PAGE_SIZE && HEADER_SIZE <= at && at + SLOT_SIZE <= start
    ensures WriteTuple(d, tuple, start, at, count)[k] ==
            if 8 <= k < 10 then Bytes16(count)[k - 8]
            else if 10 <= k < 12 then Bytes16(start)[k - 10]
            else if at <= k < at + 2 then Bytes16(start)[k - at]
            else if at + 2 <= k < at + 4 then Bytes16(|tuple|)[k - (at + 2)]
            else if start <= k < start + |tuple| then tuple[k - start]
            else d[k]
  {
    var d1 := Copy(d, FREE_SPACE_OFFSET, Bytes16(start));
    var d2 := Copy(d1, start, tuple);
    var d3 := Copy(d2, at, Bytes16(start));
    var d4 := Copy(d3, at + 2, Bytes16(|tuple|));
    CopyAt(d, FREE_SPACE_OFFSET, Bytes16(start), k);
    CopyAt(d1, start, tuple, k);
    CopyAt(d2, at, Bytes16(start), k);
    CopyAt(d3, at + 2, Bytes16(|tuple|), k);
    CopyAt(d4, TUPLE_COUNT_OFFSET, Bytes16(count), k);
  }

  lemma WriteTupleSlot(d: PageData, tuple: seq<Byte>, start: nat, i: nat)
    requires start + |tuple| <= PAGE_SIZE && SlotAt(i) + SLOT_SIZE <= start
    ensures var d' := WriteTuple(d, tuple, start, SlotAt(i), i + 1);
            && TupleCount(d') == i + 1 && FreePointer(d') == start
            && SlotHolds(d', i, Row(tuple, true), start)
  {
    var at := SlotAt(i);
    var d' := WriteTuple(d, tuple, start, at, i + 1);
    forall k: nat | k < PAGE_SIZE && (8 <= k < 12 || at <= k < at + 4 || start <= k < start + |tuple|)
      ensures d'[k] == if k < 10 then Bytes16(i + 1)[k - 8] else if k < 12 then Bytes16(start)[k - 10]
                       else if k < at + 2 then Bytes16(start)[k - at]
                       else if k < at + 4 then Bytes16(|tuple|)[k - (at + 2)] else tuple[k - start]
    {
      WriteTupleBytes(d, tuple, start, at, i + 1, k);
    }
    Bytes16RoundTrip(i + 1);
    Bytes16RoundTrip(start);
    Bytes16RoundTrip(|tuple|);
  }

  /** The three outcomes of an insert on a page whose slot array ends before the free
      pointer: no intermediate wraps outside the band of 65532 to 65535 bytes. */
  lemma PlanExact(n: nat, free: nat, size: nat)
    requires SlotAt(n) <= free <= PAGE_SIZE
    ensures !(65532 <= size <= 65535) ==>
              PlanInsert(n, free, size) ==
              if SlotAt(n + 1) + size <= free then Place(free - size, SlotAt(n), n + 1) else Refuse
    ensures 65532 <= size <= 65535 ==>
              PlanInsert(n, free, size) == if SlotAt(n) + (size - 65532) <= free then OutOfPage else Refuse
  {
    if size <= 65531 {
      assert (size + SLOT_SIZE) % 0x1_0000 == size + SLOT_SIZE;
      if size <= free { assert (free - size) % 0x1_0000 == free - size; }
    } else if size <= 65535 {
      assert (size + SLOT_SIZE) % 0x1_0000 == size - 65532;
      assert (free - size) % 0x1_0000 == free - size + 0x1_0000;
    }
  }

  /** Insert succeeds exactly when the header, one more slot and all accepted bytes fit; it
      then appends one row and changes nothing else. */
  lemma InsertRefines(d: PageData, rows: seq<Row>, lsn: nat, tuple: seq<Byte>)
    requires Represents(d, rows, lsn)
    requires !(65532 <= |tuple| <= 65535)
    ensures var r := InsertTuple(d, tuple);
            && (r.Inserted? <==> HEADER_SIZE + 4 * (|rows| + 1) + Used(rows) + |tuple| <= PAGE_SIZE)
            && (!r.Inserted? ==> r == Rejected)
            && (r.Inserted? ==> r.slot == |rows| && Represents(r.page, rows + [Row(tuple, true)], lsn))
  {
    PlanExact(|rows|, PAGE_SIZE - Used(rows), |tuple|);
    if SlotAt(|rows| + 1) + Used(rows) + |tuple| <= PAGE_SIZE { InsertAppends(d, rows, lsn, tuple); }
  }

  lemma InsertAppends(d: PageData, rows: seq<Row>, lsn: nat, tuple: seq<Byte>)
    requires Represents(d, rows, lsn) && SlotAt(|rows| + 1) + Used(rows) + |tuple| <= PAGE_SIZE
    ensures InsertTuple(d, tuple).Inserted? && InsertTuple(d, tuple).slot == |rows|
    ensures Represents(InsertTuple(d, tuple).page, rows + [Row(tuple, true)], lsn)
  {
    PlanExact(|rows|, PAGE_SIZE - Used(rows), |tuple|);
    AppendRepresents(d, InsertTuple(d, tuple).page, rows, lsn, tuple);
  }

  lemma AppendRepresents(d: PageData, d': PageData, rows: seq<Row>, lsn: nat, tuple: seq<Byte>)
    requires Represents(d, rows, lsn) && SlotAt(|rows| + 1) + Used(rows) + |tuple| <= PAGE_SIZE
    requires d' == WriteTuple(d, tuple, PAGE_SIZE - Used(rows) - |tuple|, SlotAt(|rows|), |rows| + 1)
    ensures Represents(d', rows + [Row(tuple, true)], lsn)
  {
    var start := PAGE_SIZE - Used(rows) - |tuple|;
    WriteTupleFrame(d, tuple, start, |rows|);
    WriteTupleSlot(d, tuple, start, |rows|);
    KeepRows(d, d', rows, lsn);
    AppendRow(d', rows, lsn, Row(tuple, true));
  }

  /** The old rows and the LSN survive a change elsewhere. */
  lemma KeepRows(d: PageData, d': PageData, rows: seq<Row>, lsn: nat)
    requires Represents(d, rows, lsn)
    requires forall k: nat :: (k < 8 || 12 <= k < SlotAt(|rows|) || PAGE_SIZE - Used(rows) <= k < PAGE_SIZE) ==> d'[k] == d[k]
    ensures LSN(d') == lsn && SlotsHold(d', rows)
  {
    LSNFrame(d, d');
    SlotsFrame(d, d', rows);
  }

  lemma AppendRow(d: PageData, rows: seq<Row>, lsn: nat, row: Row)
    requires SlotAt(|rows| + 1) + Used(rows) + |row.bytes| <= PAGE_SIZE
    requires LSN(d) == lsn && SlotsHold(d, rows)
    requires TupleCount(d) == |rows| + 1 && FreePointer(d) == PAGE_SIZE - Used(rows) - |row.bytes|
    requires SlotHolds(d, |rows|, row, PAGE_SIZE - Used(rows) - |row.bytes|)
    ensures Represents(d, rows + [row], lsn)
  {
    AppendHeader(d, rows, lsn, row);
    AppendSlots(d, rows, row);
  }

  lemma AppendHeader(d: PageData, rows: seq<Row>, lsn: nat, row: Row)
    requires SlotAt(|rows| + 1) + Used(rows) + |row.bytes| <= PAGE_SIZE && LSN(d) == lsn
    requires TupleCount(d) == |rows| + 1 && FreePointer(d) == PAGE_SIZE - Used(rows) - |row.bytes|
    ensures HeaderHolds(d, rows + [row], lsn)
  {
    UsedAppend(rows, row);
  }

  lemma AppendSlots(d: PageData, rows: seq<Row>, row: Row)
    requires SlotAt(|rows| + 1) <= PAGE_SIZE && SlotsHold(d, rows)
    requires SlotHolds(d, |rows|, row, PAGE_SIZE - Used(rows) - |row.bytes|)
    ensures SlotsHold(d, rows + [row])
  {
    var rows' := rows + [row];
    UsedAppend(rows, row);
    forall i: nat | i < |rows'| ensures SlotHolds(d, i, rows'[i], Start(rows', i)) {
      if i < |rows| {
        UsedToLocal(rows, rows', i + 1);
        assert SlotHolds(d, i, rows[i], Start(rows, i));
      }
    }
  }

  lemma WriteTupleFrame(d: PageData, tuple: seq<Byte>, start: nat, n: nat)
    requires start + |tuple| <= PAGE_SIZE && SlotAt(n + 1) <= start
    ensures forall k: nat :: (k < 8 || 12 <= k < SlotAt(n) || start + |tuple| <= k < PAGE_SIZE) ==>
              WriteTuple(d, tuple, start, SlotAt(n), n + 1)[k] == d[k]
  {
    forall k: nat | k < 8 || 12 <= k < SlotAt(n) || start + |tuple| <= k < PAGE_SIZE
      ensures WriteTuple(d, tuple, start, SlotAt(n), n + 1)[k] == d[k]
    {
      WriteTupleBytes(d, tuple, start, SlotAt(n), n + 1, k);
    }
  }

  lemma LSNFrame(d: PageData, d': PageData)
    requires forall k: nat :: k < 8 ==> d'[k] == d[k]
    ensures LSN(d') == LSN(d)
  {
    DigitsFrame(d, d', LSN_OFFSET, 8);
  }

  /** The band in which `required` is cut to almost nothing: the insert runs over the end
      of the page exactly when that remainder still fits. */
  lemma OverrunExact(d: PageData, rows: seq<Row>, lsn: nat, tuple: seq<Byte>)
    requires Represents(d, rows, lsn)
    ensures InsertTuple(d, tuple).Overrun? <==>
            65532 <= |tuple| <= 65535 && HEADER_SIZE + 4 * |rows| + Used(rows) + (|tuple| - 65532) <= PAGE_SIZE
  {
    PlanExact(|rows|, PAGE_SIZE - Used(rows), |tuple|);
  }

  /** A tuple that went in is at most as large as a page with one slot has room for. */
  lemma AcceptedFits(d: PageData, rows: seq<Row>, lsn: nat, tuple: seq<Byte>)
    requires Represents(d, rows, lsn) && InsertTuple(d, tuple).Inserted?
    ensures |tuple| <= 8176
  {
    PlanExact(|rows|, PAGE_SIZE - Used(rows), |tuple|);
  }

  /** Such a tuple does get through, on an empty page already. */
  lemma OverrunHappens()
    ensures InsertTuple(Init(ZeroPage()), seq(65532, i => 0)).Overrun?
  {
    InitRepresents(ZeroPage());
    OverrunExact(Init(ZeroPage()), [], 0, seq(65532, i => 0));
  }

  /** What a reader may see of a row: a zero-length tuple reads as deleted. */
  function Visible(row: Row): Option<seq<Byte>> {
    if row.live && row.bytes != [] then Some(row.bytes) else None
  }

  /** Reading a slot gives its row's bytes, or nothing for a tombstone or a missing slot. */
  lemma GetTupleReads(d: PageData, rows: seq<Row>, lsn: nat, slot: nat)
    requires Represents(d, rows, lsn)
    ensures Readable(d, slot)
    ensures GetTuple(d, slot) == if slot < |rows| then Visible(rows[slot]) else None
  {
    if slot < |rows| {
      assert SlotHolds(d, slot, rows[slot], Start(rows, slot));
      ReadSlot(d, slot, rows[slot], Start(rows, slot));
    }
  }

  lemma ReadSlot(d: PageData, slot: nat, row: Row, start: int)
    requires SlotAt(slot + 1) <= PAGE_SIZE && slot < TupleCount(d) && SlotHolds(d, slot, row, start)
    ensures Readable(d, slot) && GetTuple(d, slot) == Visible(row)
  {
    assert SlotOffset(slot) == SlotAt(slot);
    if row.live { assert d[start..start + |row.bytes|] == row.bytes; }
  }

  /** A delete hides exactly its own row. */
  lemma DeleteRefines(d: PageData, rows: seq<Row>, lsn: nat, slot: nat)
    requires Represents(d, rows, lsn)
    ensures SlotInPage(d, slot)
    ensures MarkDelete(d, slot).Some? <==> slot < |rows|
    ensures slot < |rows| ==> Represents(MarkDelete(d, slot).value, rows[slot := rows[slot].(live := false)], lsn)
  {
    GetTupleReads(d, rows, lsn, slot);
    if slot < |rows| {
      var at := SlotAt(slot) + 2;
      assert SlotOffset(slot) + 2 == at;
      var d' := MarkDelete(d, slot).value;
      forall k: nat | k < PAGE_SIZE ensures d'[k] == if at <= k < at + 2 then 0 else d[k] {
        CopyAt(d, at, Bytes16(0), k);
      }
      DeleteFrame(d, d', rows, lsn, slot);
    }
  }

  lemma DeleteFrame(d: PageData, d': PageData, rows: seq<Row>, lsn: nat, slot: nat)
    requires Represents(d, rows, lsn) && slot < |rows|
    requires forall k: nat :: k < PAGE_SIZE ==>
               d'[k] == if SlotAt(slot) + 2 <= k < SlotAt(slot) + 4 then 0 else d[k]
    ensures Represents(d', rows[slot := rows[slot].(live := false)], lsn)
  {
    var rows' := rows[slot := rows[slot].(live := false)];
    UsedToLocal(rows, rows', |rows|);
    LSNFrame(d, d');
    forall i: nat | i < |rows'| ensures SlotHolds(d', i, rows'[i], Start(rows', i)) {
      StartInPage(rows, i);
      UsedToLocal(rows, rows', i + 1);
      assert SlotHolds(d, i, rows[i], Start(rows, i));
      DeleteSlot(d, d', i, rows[i], Start(rows, i), slot);
    }
  }

  lemma DeleteSlot(d: PageData, d': PageData, i: nat, row: Row, start: int, slot: nat)
    requires SlotAt(i + 1) <= PAGE_SIZE && SlotHolds(d, i, row, start) && SlotAt(slot + 1) <= start
    requires forall k: nat :: k < PAGE_SIZE ==>
               d'[k] == if SlotAt(slot) + 2 <= k < SlotAt(slot) + 4 then 0 else d[k]
    ensures SlotHolds(d', i, if i == slot then row.(live := false) else row, start)
  {}

  // ---------------------------------------------------------------- refinement, whole runs

  datatype Op = Inserting(tuple: seq<Byte>) | Deleting(slot: nat) | Stamping(lsn: nat)

  /** The source works for these; LSNs are 64-bit. */
  predicate OpOk(op: Op) {
    match op
    case Inserting(tuple) => !(65532 <= |tuple| <= 65535)
    case Deleting(_) => true
    case Stamping(lsn) => lsn < 0x1_0000_0000_0000_0000
  }

  /** One operation on the bytes; a refused operation changes nothing. */
  function Apply(d: PageData, op: Op): PageData
    requires op.Deleting? ==> SlotInPage(d, op.slot)
  {
    match op
    case Inserting(tuple) => (match InsertTuple(d, tuple) case Inserted(page, _) => page case _ => d)
    case Deleting(slot) => (match MarkDelete(d, slot) case Some(page) => page case None => d)
    case Stamping(lsn) => SetLSN(d, lsn)
  }

  /** The same operation on the reference: rows are appended or hidden, never rewritten. */
  function ApplyRows(rows: seq<Row>, op: Op): seq<Row> {
    match op
    case Inserting(tuple) => if Fits(rows + [Row(tuple, true)]) then rows + [Row(tuple, true)] else rows
    case Deleting(slot) => if slot < |rows| then rows[slot := rows[slot].(live := false)] else rows
    case Stamping(_) => rows
  }

  function RunRows(rows: seq<Row>, ops: seq<Op>): seq<Row>
    decreases ops
  {
    if ops == [] then rows else RunRows(ApplyRows(rows, ops[0]), ops[1..])
  }

  function RunLSN(lsn: nat, ops: seq<Op>): nat
    decreases ops
  {
    if ops == [] then lsn else RunLSN(if ops[0].Stamping? then ops[0].lsn else lsn, ops[1..])
  }

  /** No operation of the run names a slot outside the page. */
  predicate IsRun(d: PageData, ops: seq<Op>)
    decreases ops
  {
    ops == [] || ((ops[0].Deleting? ==> SlotInPage(d, ops[0].slot)) && IsRun(Apply(d, ops[0]), ops[1..]))
  }

  function Run(d: PageData, ops: seq<Op>): PageData
    requires IsRun(d, ops)
    decreases ops
  {
    if ops == [] then d else Run(Apply(d, ops[0]), ops[1..])
  }

  lemma ApplyRefines(d: PageData, rows: seq<Row>, lsn: nat, op: Op)
    requires Represents(d, rows, lsn) && OpOk(op)
    ensures op.Deleting? ==> SlotInPage(d, op.slot)
    ensures Represents(Apply(d, op), ApplyRows(rows, op), if op.Stamping? then op.lsn else lsn)
  {
    match op
    case Inserting(tuple) =>
      InsertRefines(d, rows, lsn, tuple);
      UsedAppend(rows, Row(tuple, true));
    case Deleting(slot) => DeleteRefines(d, rows, lsn, slot);
    case Stamping(lsn') => SetLSNRepresents(d, rows, lsn, lsn');
  }

  /** Every sequence of operations runs inside the page, and after it the bytes represent
      the reference rows and the LSN. */
  lemma {:induction false} RunRefines(d: PageData, rows: seq<Row>, lsn: nat, ops: seq<Op>)
    requires Represents(d, rows, lsn) && forall op :: op in ops ==> OpOk(op)
    ensures IsRun(d, ops) && Represents(Run(d, ops), RunRows(rows, ops), RunLSN(lsn, ops))
    decreases ops
  {
    if ops == [] {
    } else {
      assert ops[0] in ops;
      ApplyRefines(d, rows, lsn, ops[0]);
      RunRefines(Apply(d, ops[0]), ApplyRows(rows, ops[0]), if ops[0].Stamping? then ops[0].lsn else lsn, ops[1..]);
    }
  }

  /** A row is for ever: later operations keep its bytes, a tombstone stays one, and only a
      delete of this very slot makes one. */
  lemma {:induction false} RowsPersist(rows: seq<Row>, ops: seq<Op>, i: nat)
    requires i < |rows|
    ensures |rows| <= |RunRows(rows, ops)|
    ensures RunRows(rows, ops)[i] == Row(rows[i].bytes, rows[i].live && Deleting(i) !in ops)
    decreases ops
  {
    if ops == [] {
    } else {
      RowsPersist(ApplyRows(rows, ops[0]), ops[1..], i);
      assert Deleting(i) in ops <==> ops[0] == Deleting(i) || Deleting(i) in ops[1..];
    }
  }

  /** End to end on the bytes: an inserted tuple reads back the same after any further
      operations, until its own slot is deleted, and never again after that. */
  lemma TupleReadsBack(d: PageData, rows: seq<Row>, lsn: nat, tuple: seq<Byte>, ops: seq<Op>)
    requires Represents(d, rows, lsn) && !(65532 <= |tuple| <= 65535) && InsertTuple(d, tuple).Inserted?
    requires forall op :: op in ops ==> OpOk(op)
    ensures var r := InsertTuple(d, tuple);
            && IsRun(r.page, ops) && Readable(Run(r.page, ops), r.slot)
            && GetTuple(Run(r.page, ops), r.slot) == if tuple != [] && Deleting(r.slot) !in ops then Some(tuple) else None
  {
    InsertRefines(d, rows, lsn, tuple);
    var r := InsertTuple(d, tuple);
    var rows' := rows + [Row(tuple, true)];
    RunRefines(r.page, rows', lsn, ops);
    RowsPersist(rows', ops, r.slot);
    GetTupleReads(Run(r.page, ops), RunRows(rows', ops), RunLSN(lsn, ops), r.slot);
  }
}
