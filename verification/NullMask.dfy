/**
 The null mask of a flat vector: one bit per value, packed into 64-bit words.
 */
module NullMask {

  /** The mask of bit i: one, shifted left by a six-bit amount. */
  function Bit(i: nat): bv64
    requires i < 64
  {
    Shifted(i as bv6)
  }

  function Shifted(x: bv6): bv64 { (1 as bv64) << x }

  function SetMask(w: bv64, p: bv64, on: bool): bv64 { if on then w | p else w & !p }

  predicate HasMask(w: bv64, p: bv64) { w & p != 0 }

  lemma ShiftRoundTrip(i: nat)
    requires i < 64
    ensures (i as bv6) as nat == i
  {}

  lemma ShiftsDiffer(x: bv6, y: bv6)
    ensures Shifted(x) != 0
    ensures x != y ==> Shifted(x) & Shifted(y) == 0
  {}

  lemma SetOther(w: bv64, p: bv64, q: bv64)
    requires p & q == 0
    ensures SetMask(w, p, true) & q == w & q
  {}

  lemma ClearOther(w: bv64, p: bv64, q: bv64)
    requires p & q == 0
    ensures SetMask(w, p, false) & q == w & q
  {}

  lemma SetOwn(w: bv64, p: bv64)
    ensures SetMask(w, p, true) & p == p
  {}

  lemma ClearOwn(w: bv64, p: bv64)
    ensures SetMask(w, p, false) & p == 0
  {}

  lemma OtherMaskStays(w: bv64, p: bv64, q: bv64, on: bool)
    requires p & q == 0
    ensures HasMask(SetMask(w, p, on), q) == HasMask(w, q)
  {
    if on { SetOther(w, p, q); } else { ClearOther(w, p, q); }
  }

  lemma OwnMaskChanges(w: bv64, p: bv64, on: bool)
    requires p != 0
    ensures HasMask(SetMask(w, p, on), p) == on
  {
    if on { SetOwn(w, p); } else { ClearOwn(w, p); }
  }

  /** Changing one bit leaves every other bit of the word alone. */
  lemma SetBitIsLocal(w: bv64, i: nat, j: nat, on: bool)
    requires i < 64 && j < 64
    ensures HasMask(SetMask(w, Bit(i), on), Bit(j)) == if i == j then on else HasMask(w, Bit(j))
  {
    ShiftRoundTrip(i);
    ShiftRoundTrip(j);
    ShiftsDiffer(i as bv6, j as bv6);
    if i == j { OwnMaskChanges(w, Bit(i), on); } else { OtherMaskStays(w, Bit(i), Bit(j), on); }
  }

  // ---------------------------------------------------------------- the packed mask

  /** The mask covers index i. */
  predicate Covers(mask: seq<bv64>, i: nat) { i / 64 < |mask| }

  predicate IsNull(mask: seq<bv64>, i: nat)
    requires Covers(mask, i)
  {
    HasMask(mask[i / 64], Bit(i % 64))
  }

  function SetNull(mask: seq<bv64>, i: nat, on: bool): seq<bv64>
    requires Covers(mask, i)
  {
    mask[i / 64 := SetMask(mask[i / 64], Bit(i % 64), on)]
  }

  /** Two to the power of n, as a word. */
  function Power(n: nat): bv64
    requires n < 64
  {
    if n == 0 then 1 else Power(n - 1) + Power(n - 1)
  }

  lemma ShiftDoubles(x: bv6)
    requires x < 63
    ensures Shifted(x + 1) == Shifted(x) + Shifted(x)
  {}

  lemma NextShift(i: nat)
    requires i < 63
    ensures (i as bv6) < 63 && ((i + 1) as bv6) == (i as bv6) + 1
  {
    ShiftRoundTrip(i);
    ShiftRoundTrip(i + 1);
  }

  lemma {:induction false} BitIsPower(i: nat)
    requires i < 64
    ensures Bit(i) == Power(i)
  {
    if i == 0 {
    } else {
      BitIsPower(i - 1);
      NextShift(i - 1);
      ShiftDoubles((i - 1) as bv6);
    }
  }

  /** The layout callers see: index i is the bit of value 2^(i mod 64) in word i / 64. Setting
      it in a word of zeros gives that value, and it is null exactly if that bit is in the word. */
  lemma MaskLayout(mask: seq<bv64>, i: nat)
    requires Covers(mask, i)
    ensures IsNull(mask, i) <==> HasMask(mask[i / 64], Power(i % 64))
    ensures mask[i / 64] == 0 ==> SetNull(mask, i, true)[i / 64] == Power(i % 64)
  {
    var bit := i % 64;
    BitIsPower(bit);
    SetInZero(Bit(bit));
  }

  lemma SetInZero(p: bv64)
    ensures SetMask(0, p, true) == p
  {}

  /** Rounding the capacity up to whole words leaves every index below it covered. */
  lemma CapacityCovers(capacity: nat, i: nat)
    requires i < capacity
    ensures i / 64 < (capacity + 63) / 64
  {}

  /** The mask is an array of booleans: setting one index changes that index only, also among
      the 64 that share its word. */
  lemma SetNullIsLocal(mask: seq<bv64>, i: nat, j: nat, on: bool)
    requires Covers(mask, i) && Covers(mask, j)
    ensures Covers(SetNull(mask, i, on), j)
    ensures IsNull(SetNull(mask, i, on), j) <==> if i == j then on else IsNull(mask, j)
  {
    SetBitIsLocal(mask[i / 64], i % 64, j % 64, on);
    assert i == 64 * (i / 64) + i % 64 && j == 64 * (j / 64) + j % 64;
  }

  datatype Write = Write(index: nat, on: bool)

  function ApplyAll(mask: seq<bv64>, ws: seq<Write>, n: nat): (r: seq<bv64>)
    requires n <= |ws| && forall k :: 0 <= k < n ==> Covers(mask, ws[k].index)
    ensures |r| == |mask|
  {
    if n == 0 then mask
    else
      assert Covers(mask, ws[n - 1].index);
      SetNull(ApplyAll(mask, ws, n - 1), ws[n - 1].index, ws[n - 1].on)
  }

  /** The reference: the last value written to an index, or the initial one. */
  function LastWritten(ws: seq<Write>, n: nat, i: nat, initial: bool): bool
    requires n <= |ws|
  {
    if n == 0 then initial
    else if ws[n - 1].index == i then ws[n - 1].on
    else LastWritten(ws, n - 1, i, initial)
  }

  /** After every sequence of writes each index reads back the last value set for it. */
  lemma {:induction false} ReadsLastWrite(mask: seq<bv64>, ws: seq<Write>, n: nat, i: nat)
    requires n <= |ws| && Covers(mask, i) && forall k :: 0 <= k < n ==> Covers(mask, ws[k].index)
    ensures IsNull(ApplyAll(mask, ws, n), i) == LastWritten(ws, n, i, IsNull(mask, i))
  {
    if n == 0 {
    } else {
      ReadsLastWrite(mask, ws, n - 1, i);
      SetNullIsLocal(ApplyAll(mask, ws, n - 1), ws[n - 1].index, i, ws[n - 1].on);
    }
  }

  class NullBitmap {
    const capacity: nat
    const words: array<bv64>

    ghost predicate Valid() {
      words.Length == (capacity + 63) / 64
    }

    constructor (capacity: nat)
      ensures Valid() && this.capacity == capacity && fresh(words)
      ensures forall i: nat :: i < capacity ==> Covers(words[..], i) && !IsNull(words[..], i)
    {
      this.capacity := capacity;
      words := new bv64[(capacity + 63) / 64](i => 0);
      new;
      forall i: nat | i < capacity ensures Covers(words[..], i) && !IsNull(words[..], i) {
        CapacityCovers(capacity, i);
      }
    }

    method Set(i: nat, on: bool)
      requires Valid() && i < capacity
      modifies words
      ensures Covers(old(words[..]), i) && words[..] == SetNull(old(words[..]), i, on)
    {
      CapacityCovers(capacity, i);
      var word, bit := i / 64, i % 64;
      words[word] := SetMask(words[word], Bit(bit), on);
    }

    method Get(i: nat) returns (isNull: bool)
      requires Valid() && i < capacity
      ensures Covers(words[..], i) && isNull == IsNull(words[..], i)
    {
      CapacityCovers(capacity, i);
      isNull := HasMask(words[i / 64], Bit(i % 64));
    }
  }
}
