/**
 The slotted page as an object over the bytes of a frame: each method copies bytes into
 the buffer in place and is proved to leave exactly the bytes the specification gives.
 */
module PageObject {
  import opened Config
  import SP = SlottedPage

  class SlottedPage {
    const data: array<Byte>
    const pid: PageId
    var dirty: bool

    ghost predicate Valid()
    {
      data.Length == PAGE_SIZE
    }

    constructor (pid: PageId, bytes: PageData, dirty: bool)
      ensures Valid() && fresh(data) && data[..] == bytes && this.pid == pid && this.dirty == dirty
    {
      data := new Byte[PAGE_SIZE](i requires 0 <= i < PAGE_SIZE => bytes[i]);
      this.pid, this.dirty := pid, dirty;
    }

    method Memcpy(off: nat, bytes: seq<Byte>)
      requires Valid() && off + |bytes| <= PAGE_SIZE
      modifies data
      ensures data[..] == SP.Copy(old(data[..]), off, bytes)
    {
      var i := 0;
      while i < |bytes|
        invariant i <= |bytes|
        invariant SP.Copy(data[..], off + i, bytes[i..]) == SP.Copy(old(data[..]), off, bytes)
      {
        ghost var before := data[..];
        data[off + i] := bytes[i];
        assert data[..] == before[off + i := bytes[i]];
        assert bytes[i..][1..] == bytes[i + 1..];
        i := i + 1;
      }
    }

    method U16(off: nat) returns (v: nat)
      requires Valid() && off + 2 <= PAGE_SIZE
      ensures v == SP.U16(data[..], off)
    {
      var lo: int, hi: int := data[off], data[off + 1];
      v := lo + 256 * hi;
    }

    method Init()
      requires Valid()
      modifies data
      ensures data[..] == SP.Init(old(data[..]))
      ensures SP.Represents(data[..], [], 0)
    {
      SP.InitRepresents(data[..]);
      for i := 0 to PAGE_SIZE
        invariant forall j :: 0 <= j < i ==> data[j] == 0
      {
        data[i] := 0;
      }
      assert data[..] == ZeroPage();
      Memcpy(SP.LSN_OFFSET, SP.ToDigits(0, 8));
      Memcpy(SP.TUPLE_COUNT_OFFSET, SP.Bytes16(0));
      Memcpy(SP.FREE_SPACE_OFFSET, SP.Bytes16(PAGE_SIZE));
    }

    method GetLSN() returns (lsn: nat)
      requires Valid()
      ensures lsn == SP.LSN(data[..])
    {
      lsn := 0;
      var i := 8;
      while i > 0
        invariant 0 <= i <= 8 && lsn == SP.Digits(data[..], SP.LSN_OFFSET + i, 8 - i)
      {
        i := i - 1;
        var lo: int := data[SP.LSN_OFFSET + i];
        lsn := lo + 256 * lsn;
      }
    }

    method SetLSN(lsn: nat)
      requires Valid()
      modifies data
      ensures data[..] == SP.SetLSN(old(data[..]), lsn)
    {
      Memcpy(SP.LSN_OFFSET, SP.ToDigits(lsn, 8));
    }

    /** On a page in use, for any tuple the 16-bit check decides rightly. */
    method InsertTuple(tuple: seq<Byte>, ghost rows: seq<SP.Row>, ghost lsn: nat) returns (ok: bool, slot: nat)
      requires Valid() && SP.Represents(data[..], rows, lsn)
      requires !(65532 <= |tuple| <= 65535)
      modifies this`dirty, data
      ensures ok == SP.Fits(rows + [SP.Row(tuple, true)])
      ensures SP.InsertTuple(old(data[..]), tuple) == if ok then SP.Inserted(data[..], slot) else SP.Rejected
      ensures ok ==> dirty && slot == |rows| && SP.Represents(data[..], rows + [SP.Row(tuple, true)], lsn)
      ensures !ok ==> data[..] == old(data[..]) && dirty == old(dirty)
    {
      SP.InsertRefines(data[..], rows, lsn, tuple);
      SP.UsedAppend(rows, SP.Row(tuple, true));
      var count := U16(SP.TUPLE_COUNT_OFFSET);
      var free := U16(SP.FREE_SPACE_OFFSET);
      slot := count;
      var plan := SP.PlanInsert(count, free, |tuple|);
      match plan
      case Refuse => ok := false;
      case OutOfPage => assert false;
      case Place(start, at, newCount) =>
        Memcpy(SP.FREE_SPACE_OFFSET, SP.Bytes16(start));
        Memcpy(start, tuple);
        Memcpy(at, SP.Bytes16(start));
        Memcpy(at + 2, SP.Bytes16(|tuple|));
        Memcpy(SP.TUPLE_COUNT_OFFSET, SP.Bytes16(newCount));
        dirty := true;
        ok := true;
    }

    method GetTuple(slot: nat) returns (tuple: Option<seq<Byte>>)
      requires Valid() && SP.Readable(data[..], slot)
      ensures tuple == SP.GetTuple(data[..], slot)
    {
      var count := U16(SP.TUPLE_COUNT_OFFSET);
      if slot >= count { return None; }
      var at := SP.SlotOffset(slot);
      var off := U16(at);
      var size := U16(at + 2);
      if size == 0 { return None; }
      return Some(data[off..off + size]);
    }

    method MarkDelete(slot: nat) returns (ok: bool)
      requires Valid() && SP.SlotInPage(data[..], slot)
      modifies this`dirty, data
      ensures SP.MarkDelete(old(data[..]), slot) == if ok then Some(data[..]) else None
      ensures if ok then dirty else data[..] == old(data[..]) && dirty == old(dirty)
    {
      var count := U16(SP.TUPLE_COUNT_OFFSET);
      if slot >= count { return false; }
      Memcpy(SP.SlotOffset(slot) + 2, SP.Bytes16(0));
      dirty := true;
      return true;
    }
  }
}
