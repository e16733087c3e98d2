/**
 The arena allocator: bump allocation in chunks of one size, released all at once. A chunk
 is known by the address the system allocator gave it, which is a parameter here.
 */
module Arena {

  /** `used` records how far each chunk was filled; the source keeps only the last entry. */
  datatype Arena = Arena(size: nat, bases: seq<nat>, used: seq<nat>)

  datatype Block = Block(addr: nat, len: nat, chunk: nat)

  ghost predicate Valid(a: Arena) {
    && |a.bases| == |a.used| && a.bases != []
    && (forall i :: 0 <= i < |a.used| ==> a.used[i] <= a.size)
    && (forall i, j :: 0 <= i < j < |a.bases| ==> Apart(a.bases[i], a.bases[j], a.size))
  }

  /** Two chunks of this size do not overlap. */
  predicate Apart(b: nat, c: nat, size: nat) { b + size <= c || c + size <= b }

  function Last<T>(s: seq<T>): T
    requires s != []
  {
    s[|s| - 1]
  }

  /** A system allocator never returns memory that is in use. */
  ghost predicate FreshBase(a: Arena, base: nat) {
    forall i :: 0 <= i < |a.bases| ==> Apart(a.bases[i], base, a.size)
  }

  function Padding(a: Arena, align: nat): nat
    requires a.bases != [] && a.used != [] && align > 0
  {
    (align - (Last(a.bases) + Last(a.used)) % align) % align
  }

  /** The request fits the current chunk, padding included. */
  predicate FitsHere(a: Arena, len: nat, align: nat)
    requires a.bases != [] && a.used != [] && align > 0
  {
    Last(a.used) + len + Padding(a, align) <= a.size
  }

  /** Takes the bytes from the current chunk, or starts a new one without any padding. */
  function Allocate(a: Arena, len: nat, align: nat, base: nat): (Arena, Block)
    requires a.bases != [] && |a.used| == |a.bases| && align > 0
  {
    var k := |a.bases|;
    if FitsHere(a, len, align) then
      var pad := Padding(a, align);
      (a.(used := a.used[k - 1 := Last(a.used) + len + pad]), Block(Last(a.bases) + Last(a.used) + pad, len, k - 1))
    else
      (a.(bases := a.bases + [base], used := a.used + [len]), Block(base, len, k))
  }

  /** Keeps the first chunk and forgets the rest. */
  function Reset(a: Arena): Arena
    requires a.bases != []
  {
    a.(bases := [a.bases[0]], used := [0])
  }

  lemma MulAtLeast(w: nat, d: int)
    ensures d >= 1 ==> w * d >= w
    ensures d <= -1 ==> w * d + w <= 0
  {
    if d >= 1 { assert w * d == w * (d - 1) + w; }
    if d <= -1 { assert w * d == w * (d + 1) - w; }
  }

  lemma RemainderUnique(x: nat, w: nat, q: nat, r: nat)
    requires w > 0 && r < w && x == w * q + r
    ensures x % w == r
  {
    var d := q - x / w;
    assert x == w * (x / w) + x % w;
    assert w * d == w * q - w * (x / w);
    MulAtLeast(w, d);
  }

  lemma PaddingAligns(addr: nat, align: nat)
    requires align > 0
    ensures var pad := (align - addr % align) % align;
            pad < align && (addr + pad) % align == 0
  {
    var q, r := addr / align, addr % align;
    assert addr == align * q + r;
    if r == 0 {
      RemainderUnique(align, align, 1, 0);
    } else {
      RemainderUnique(align - r, align, 0, align - r);
      assert align * (q + 1) == align * q + align;
      RemainderUnique(addr + (align - r), align, q + 1, 0);
    }
  }

  /** One allocation, exactly: the block lies inside its chunk if and only if it is no larger
      than a chunk, and it is aligned if and only if it fitted the current chunk or the base
      of the new chunk happens to be aligned. */
  lemma AllocateExact(a: Arena, len: nat, align: nat, base: nat)
    requires Valid(a) && align > 0
    ensures var (a', b) := Allocate(a, len, align, base);
            && b.len == len && b.chunk == |a'.bases| - 1
            && Last(a'.bases) <= b.addr
            && (b.addr + len <= Last(a'.bases) + a.size <==> len <= a.size)
            && (b.addr % align == 0 <==> FitsHere(a, len, align) || base % align == 0)
            && b.addr + len == Last(a'.bases) + Last(a'.used)
  {
    PaddingAligns(Last(a.bases) + Last(a.used), align);
  }

  lemma LeastAligned(addr: nat, align: nat, x: nat)
    requires align > 0 && addr <= x && x % align == 0
    ensures addr + (align - addr % align) % align <= x
  {
    var q, r, k := addr / align, addr % align, x / align;
    assert addr == align * q + r && x == align * k;
    if r == 0 {
      RemainderUnique(align, align, 1, 0);
    } else {
      RemainderUnique(align - r, align, 0, align - r);
      assert align * (k - q) == align * k - align * q;
      MulAtLeast(align, k - q);
      assert k != q;
    }
  }

  /** First fit: the request stays in the current chunk if and only if some aligned address
      from the first unused byte on leaves room for it, and then gets the least such address;
      otherwise it gets the start of the new chunk. */
  lemma AllocateFirstFit(a: Arena, len: nat, align: nat, base: nat)
    requires Valid(a) && align > 0
    ensures var (a', b) := Allocate(a, len, align, base);
            var next, end := Last(a.bases) + Last(a.used), Last(a.bases) + a.size;
            && (b.chunk == |a.bases| - 1 <==> exists x: nat :: next <= x && x % align == 0 && x + len <= end)
            && (b.chunk == |a.bases| - 1 ==>
                  a'.bases == a.bases && next <= b.addr && b.addr % align == 0 &&
                  forall x: nat :: next <= x && x % align == 0 ==> b.addr <= x)
            && (b.chunk != |a.bases| - 1 ==> a'.bases == a.bases + [base] && b.addr == base)
  {
    var next, end := Last(a.bases) + Last(a.used), Last(a.bases) + a.size;
    var least := next + Padding(a, align);
    PaddingAligns(next, align);
    forall x: nat | next <= x && x % align == 0 ensures least <= x { LeastAligned(next, align, x); }
    if FitsHere(a, len, align) { assert next <= least && least % align == 0 && least + len <= end; }
  }

  lemma AllocateValid(a: Arena, len: nat, align: nat, base: nat)
    requires Valid(a) && align > 0 && len <= a.size && FreshBase(a, base)
    ensures Valid(Allocate(a, len, align, base).0)
  {}

  lemma AllocateValidExact(a: Arena, len: nat, align: nat, base: nat)
    requires Valid(a) && align > 0 && FreshBase(a, base)
    ensures Valid(Allocate(a, len, align, base).0) <==> len <= a.size
  {
    if len <= a.size {
      AllocateValid(a, len, align, base);
    } else {
      var used := Allocate(a, len, align, base).0.used;
      assert used[|used| - 1] > a.size;
    }
  }

  // ---------------------------------------------------------------- runs between resets

  datatype Request = Request(len: nat, align: nat, base: nat)

  ghost predicate RequestOk(a: Arena, r: Request) {
    r.align > 0 && r.len <= a.size && FreshBase(a, r.base)
  }

  ghost predicate IsRun(a: Arena, rs: seq<Request>)
    decreases rs
  {
    rs == [] || (a.bases != [] && |a.used| == |a.bases| && RequestOk(a, rs[0]) && IsRun(Allocate(a, rs[0].len, rs[0].align, rs[0].base).0, rs[1..]))
  }

  /** The arena after the requests, and the blocks handed out, oldest first. */
  ghost function Run(a: Arena, rs: seq<Request>): (Arena, seq<Block>)
    requires IsRun(a, rs)
    decreases rs
  {
    if rs == [] then (a, [])
    else
      var (a1, b) := Allocate(a, rs[0].len, rs[0].align, rs[0].base);
      var (a', bs) := Run(a1, rs[1..]);
      (a', [b] + bs)
  }

  /** Block b lies in its chunk, below what has been used of it. */
  ghost predicate Placed(a: Arena, b: Block) {
    && b.chunk < |a.bases| && b.chunk < |a.used|
    && a.bases[b.chunk] <= b.addr && b.addr + b.len <= a.bases[b.chunk] + a.used[b.chunk]
  }

  /** Block b lies in its chunk at or above what had been used of it, or in a newer chunk. */
  ghost predicate After(a: Arena, a': Arena, b: Block) {
    && Placed(a', b)
    && (b.chunk < |a.used| && b.chunk < |a.bases| ==> a.bases[b.chunk] + a.used[b.chunk] <= b.addr)
  }

  /** The chunks of a are the first chunks of a', filled no further back. */
  ghost predicate Grown(a: Arena, a': Arena) {
    && a'.size == a.size && |a.bases| <= |a'.bases| && |a.used| == |a.bases| && |a'.used| == |a'.bases|
    && (forall i :: 0 <= i < |a.bases| ==> a'.bases[i] == a.bases[i] && a.used[i] <= a'.used[i])
  }

  lemma AllocateGrows(a: Arena, len: nat, align: nat, base: nat)
    requires Valid(a) && align > 0
    ensures var (a', b) := Allocate(a, len, align, base); Grown(a, a') && After(a, a', b)
  {}

  /** Blocks do not overlap. */
  predicate Disjoint(b: Block, c: Block) { b.addr + b.len <= c.addr || c.addr + c.len <= b.addr }

  lemma PlacedApart(a: Arena, b: Block, a': Arena, c: Block)
    requires Valid(a') && Grown(a, a') && Placed(a, b) && After(a, a', c)
    ensures Disjoint(b, c)
  {
    if b.chunk != c.chunk {
      assert a'.used[b.chunk] <= a'.size && a'.used[c.chunk] <= a'.size;
      if b.chunk < c.chunk { assert Apart(a'.bases[b.chunk], a'.bases[c.chunk], a'.size); }
      else { assert Apart(a'.bases[c.chunk], a'.bases[b.chunk], a'.size); }
    }
  }

  /** Arena safety over every run: all blocks lie inside one chunk, and each is disjoint from
      every other. */
  lemma {:induction false} RunSafe(a: Arena, rs: seq<Request>)
    requires Valid(a) && IsRun(a, rs)
    ensures var (a', bs) := Run(a, rs);
            && Valid(a') && Grown(a, a') && |bs| == |rs|
            && (forall i :: 0 <= i < |bs| ==> After(a, a', bs[i]))
            && (forall i, j :: 0 <= i < j < |bs| ==> Disjoint(bs[i], bs[j]))
    decreases rs
  {
    if rs == [] {
    } else {
      var r := rs[0];
      var (a1, b) := Allocate(a, r.len, r.align, r.base);
      AllocateValid(a, r.len, r.align, r.base);
      AllocateGrows(a, r.len, r.align, r.base);
      RunSafe(a1, rs[1..]);
      var (a', bs) := Run(a1, rs[1..]);
      forall i | 0 <= i < |bs| ensures Disjoint(b, bs[i]) && After(a, a', bs[i]) {
        PlacedApart(a1, b, a', bs[i]);
      }
    }
  }

  /** Each block is aligned when its alignment divides the address of the chunk it may open. */
  lemma {:induction false} RunAligned(a: Arena, rs: seq<Request>, i: nat)
    requires Valid(a) && IsRun(a, rs) && i < |rs|
    ensures |Run(a, rs).1| == |rs| && rs[i].align > 0
    ensures rs[i].base % rs[i].align == 0 ==> Run(a, rs).1[i].addr % rs[i].align == 0
    decreases rs
  {
    var r := rs[0];
    AllocateValid(a, r.len, r.align, r.base);
    AllocateExact(a, r.len, r.align, r.base);
    RunSafe(a, rs);
    if i == 0 {
    } else {
      RunAligned(Allocate(a, r.len, r.align, r.base).0, rs[1..], i - 1);
    }
  }

  /** Reset leaves a valid arena of one empty chunk, the first. */
  lemma ResetValid(a: Arena)
    requires Valid(a)
    ensures Valid(Reset(a)) && Reset(a) == Arena(a.size, [a.bases[0]], [0])
  {}

  // ---------------------------------------------------------------- space

  /** Two neighbouring chunks together hold almost a chunk, because the request that opened
      the second did not fit the first. */
  ghost predicate PairsFull(a: Arena, maxAlign: nat) {
    forall i :: 0 <= i < |a.used| - 1 ==> a.used[i] + a.used[i + 1] >= a.size - maxAlign + 2
  }

  lemma AllocateKeepsPairs(a: Arena, len: nat, align: nat, base: nat, maxAlign: nat)
    requires Valid(a) && 0 < align <= maxAlign && PairsFull(a, maxAlign)
    ensures PairsFull(Allocate(a, len, align, base).0, maxAlign)
  {
    PaddingAligns(Last(a.bases) + Last(a.used), align);
  }

  lemma {:induction false} RunKeepsPairs(a: Arena, rs: seq<Request>, maxAlign: nat)
    requires Valid(a) && IsRun(a, rs) && PairsFull(a, maxAlign)
    requires forall i :: 0 <= i < |rs| ==> rs[i].align <= maxAlign
    ensures PairsFull(Run(a, rs).0, maxAlign)
    decreases rs
  {
    if rs == [] {
    } else {
      var r := rs[0];
      AllocateValid(a, r.len, r.align, r.base);
      AllocateKeepsPairs(a, r.len, r.align, r.base, maxAlign);
      RunKeepsPairs(Allocate(a, r.len, r.align, r.base).0, rs[1..], maxAlign);
    }
  }

  /** The bytes taken from the first n chunks, padding included. */
  function Consumed(used: seq<nat>, n: nat): nat
    requires n <= |used|
  {
    if n == 0 then 0 else Consumed(used, n - 1) + used[n - 1]
  }

  lemma {:induction false} PairsBound(used: seq<nat>, n: nat, w: int)
    requires 1 <= n <= |used|
    requires forall i :: 0 <= i < |used| - 1 ==> used[i] + used[i + 1] >= w
    ensures (n - 1) * w + used[n - 1] <= 2 * Consumed(used, n)
  {
    if n > 1 {
      PairsBound(used, n - 1, w);
      assert (n - 1) * w == (n - 2) * w + w;
      assert used[n - 2] + used[n - 1] >= w;
    }
  }

  /** The next-fit bound: with alignments up to A, an arena that has opened k chunks since it
      was built or reset has handed out at least (k - 1) * (size - A + 2) / 2 bytes. */
  lemma SpaceBound(a: Arena, rs: seq<Request>, maxAlign: nat)
    requires Valid(a) && |a.bases| == 1 && IsRun(a, rs)
    requires forall i :: 0 <= i < |rs| ==> rs[i].align <= maxAlign
    ensures var a' := Run(a, rs).0;
            |a'.used| == |a'.bases| && (|a'.bases| - 1) * (a.size - maxAlign + 2) <= 2 * Consumed(a'.used, |a'.used|)
  {
    RunSafe(a, rs);
    RunKeepsPairs(a, rs, maxAlign);
    var a' := Run(a, rs).0;
    PairsBound(a'.used, |a'.used|, a.size - maxAlign + 2);
  }

  // ---------------------------------------------------------------- the allocator object

  class ArenaAllocator {
    const chunkSize: nat
    var bases: seq<nat>
    var offset: nat
    /** How far the chunks before the current one were filled. */
    ghost var earlier: seq<nat>

    ghost function Abs(): Arena
      reads this
    {
      Arena(chunkSize, bases, earlier + [offset])
    }

    constructor (chunkSize: nat, base: nat)
      ensures this.chunkSize == chunkSize && Abs() == Arena(chunkSize, [base], [0]) && Valid(Abs())
    {
      this.chunkSize := chunkSize;
      bases, offset, earlier := [base], 0, [];
    }

    method AllocateChunk(base: nat)
      modifies this
      ensures bases == old(bases) + [base] && offset == 0 && earlier == old(earlier) + [old(offset)]
    {
      earlier := earlier + [offset];
      bases := bases + [base];
      offset := 0;
    }

    method AllocateBytes(len: nat, align: nat, base: nat) returns (addr: nat)
      requires Valid(Abs()) && align > 0 && FreshBase(Abs(), base)
      modifies this
      ensures Valid(Abs()) <==> len <= chunkSize
      ensures Abs() == Allocate(old(Abs()), len, align, base).0
      ensures addr == Allocate(old(Abs()), len, align, base).1.addr
    {
      AllocateValidExact(Abs(), len, align, base);
      ghost var a' := Allocate(Abs(), len, align, base).0;
      var padding := (align - (bases[|bases| - 1] + offset) % align) % align;
      if offset + len + padding > chunkSize {
        AllocateChunk(base);
        padding := 0;
      }
      addr := bases[|bases| - 1] + offset + padding;
      offset := offset + len + padding;
      assert earlier + [offset] == a'.used;
    }

    method ResetAll()
      requires Valid(Abs())
      modifies this
      ensures Valid(Abs()) && Abs() == Reset(old(Abs()))
    {
      if bases != [] { bases := [bases[0]]; }
      offset := 0;
      earlier := [];
    }
  }
}
