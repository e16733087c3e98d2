/**
 The constants and value types every component shares: page size, page ids, bytes,
 and the contents of one page.
 */
module Config {

  const PAGE_SIZE: nat := 8192

  type Byte = x: int | 0 <= x < 256

  /** Page ids are 32-bit unsigned numbers. */
  type PageId = x: int | 0 <= x < 0x1_0000_0000

  const INVALID_PAGE_ID: PageId := 0xFFFF_FFFF

  type PageData = s: seq<Byte> | |s| == PAGE_SIZE witness seq(PAGE_SIZE, i => 0)

  function ZeroPage(): PageData {
    seq(PAGE_SIZE, i => 0)
  }

  datatype Option<+T> = None | Some(value: T)

  function Min(a: nat, b: nat): nat { if a <= b then a else b }

  /** The list with every occurrence of x taken out. */
  function Remove<T(==,!new)>(s: seq<T>, x: T): (r: seq<T>)
    ensures forall y :: y in r <==> y in s && y != x
  {
    if s == [] then []
    else if s[0] == x then Remove(s[1..], x)
    else [s[0]] + Remove(s[1..], x)
  }

  ghost predicate NoDup<T>(s: seq<T>) {
    forall i, j :: 0 <= i < j < |s| ==> s[i] != s[j]
  }

  lemma {:induction false} RemoveNoDup<T(!new)>(s: seq<T>, x: T)
    requires NoDup(s)
    ensures NoDup(Remove(s, x))
    ensures x !in s ==> Remove(s, x) == s
    ensures x in s ==> |Remove(s, x)| == |s| - 1
  {
    if s == [] {
    } else {
      assert s == [s[0]] + s[1..];
      RemoveNoDup(s[1..], x);
      assert s[0] !in s[1..];
    }
  }
}
