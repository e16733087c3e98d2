/**
 The replacement policy. A trace of fetch-then-unpin pairs is compared with the
 move-to-front list of its page ids, which does not mention frames at all.
 */
module LruStack {
  import opened Config
  import opened Disk
  import opened BufferPool

  /** One reference: fetch the page, then give the pin back. */
  datatype Touch = Touch(pid: PageId, dirty: bool, schedule: seq<seq<nat>>)

  /** A page already in the pool needs no frame; otherwise a wait for a victim must end. */
  predicate CanTouch(s: Pool, t: Touch) {
    && InRange(s)
    && (t.pid in s.table || TakeReady(s, t.schedule))
    && CanUnpin(Fetch(s, t.pid, t.schedule).0, t.pid)
  }

  function Apply(s: Pool, t: Touch): Pool
    requires CanTouch(s, t)
  {
    Unpin(Fetch(s, t.pid, t.schedule).0, t.pid, t.dirty)
  }

  predicate CanTrace(s: Pool, trace: seq<Touch>)
    decreases trace
  {
    trace == [] || (CanTouch(s, trace[0]) && CanTrace(Apply(s, trace[0]), trace[1..]))
  }

  function Trace(s: Pool, trace: seq<Touch>): Pool
    requires CanTrace(s, trace)
    decreases trace
  {
    if trace == [] then s else Trace(Apply(s, trace[0]), trace[1..])
  }

  /** Most recently used first, each page once. */
  function MoveToFront(list: seq<PageId>, trace: seq<Touch>): seq<PageId>
    decreases trace
  {
    if trace == [] then list else MoveToFront([trace[0].pid] + Remove(list, trace[0].pid), trace[1..])
  }

  /** The pages of the LRU list, in list order. */
  function Resident(s: Pool): (r: seq<PageId>)
    requires forall i :: 0 <= i < |s.lru| ==> s.lru[i] < |s.frames|
    ensures |r| == |s.lru|
    ensures forall i :: 0 <= i < |r| ==> r[i] == s.frames[s.lru[i]].pid
  {
    seq(|s.lru|, i requires 0 <= i < |s.lru| => s.frames[s.lru[i]].pid)
  }

  lemma {:induction false} RemoveSplits<T(!new)>(s: seq<T>, i: nat)
    requires NoDup(s) && i < |s|
    ensures Remove(s, s[i]) == s[..i] + s[i + 1..]
  {
    if i == 0 {
      assert s[0] !in s[1..];
      RemoveNoDup(s[1..], s[0]);
    } else {
      RemoveSplits(s[1..], i - 1);
      assert s[1..][..i - 1] == s[1..i] && s[1..][i..] == s[i + 1..];
      assert s[..i] == [s[0]] + s[1..i];
    }
  }

  /** Removing an entry within the first m leaves the other m - 1 in front. */
  lemma FrontHit<T(!new)>(list: seq<T>, x: T, m: nat)
    requires NoDup(list) && m <= |list| && x in list[..m]
    ensures |Remove(list, x)| == |list| - 1
    ensures ([x] + Remove(list, x))[..m] == [x] + Remove(list[..m], x)
  {
    var i :| 0 <= i < m && list[..m][i] == x;
    RemoveSplits(list, i);
    RemoveSplits(list[..m], i);
    assert list[..m][..i] == list[..i] && list[..m][i + 1..] == list[i + 1..m];
  }

  /** Removing an entry beyond the first m - 1 leaves those in front. */
  lemma FrontMiss<T(!new)>(list: seq<T>, x: T, m: nat)
    requires NoDup(list) && 0 < m <= |list| && x !in list[..m]
    ensures |Remove(list, x)| >= m - 1
    ensures ([x] + Remove(list, x))[..m] == [x] + list[..m - 1]
  {
    if x in list {
      assert list == list[..m] + list[m..];
      var i :| m <= i < |list| && list[i] == x;
      RemoveSplits(list, i);
    } else {
      RemoveNoDup(list, x);
    }
  }

  /** Unpinned frames, each in one of the two lists: the state between two references. */
  ghost predicate Idle(s: Pool) {
    && Valid(s)
    && |s.lru| + |s.free| == |s.frames|
    && (forall f: nat :: f < |s.frames| ==> s.frames[f].pin == 0)
    && (forall i :: 0 <= i < |s.lru| ==> s.lru[i] < |s.frames|)
  }

  lemma FramesIdle(s: Pool, v: Pool)
    requires Idle(s) && Valid(v) && |v.frames| == |s.frames| && |v.lru| + |v.free| == |s.lru| + |s.free|
    requires forall f: nat :: f < |v.frames| ==> v.frames[f].pin == 0
    ensures Idle(v)
  {
    forall i | 0 <= i < |v.lru| ensures v.lru[i] < |v.frames| { assert v.lru[i] in v.lru; }
  }

  lemma ApplyValid(s: Pool, t: Touch)
    requires Valid(s) && CanTouch(s, t)
    ensures Valid(Apply(s, t))
  {
    FetchValid(s, t.pid, t.schedule);
    UnpinValid(Fetch(s, t.pid, t.schedule).0, t.pid, t.dirty);
  }

  /** A hit moves the page's frame to the front of the list and keeps every page id. */
  lemma HitMovesFrame(s: Pool, t: Touch, i: nat)
    requires Idle(s) && CanTouch(s, t) && t.pid in s.table
    requires i < |s.lru| && s.lru[i] == s.table[t.pid]
    ensures Idle(Apply(s, t)) && |Apply(s, t).frames| == |s.frames|
    ensures Apply(s, t).lru == [s.lru[i]] + (s.lru[..i] + s.lru[i + 1..])
    ensures forall f: nat :: f < |s.frames| ==> Apply(s, t).frames[f].pid == s.frames[f].pid
  {
    ApplyValid(s, t);
    RemoveSplits(s.lru, i);
    FramesIdle(s, Apply(s, t));
  }

  lemma HitMoves(s: Pool, t: Touch)
    requires Idle(s) && CanTouch(s, t) && t.pid in s.table
    ensures Idle(Apply(s, t)) && |Apply(s, t).frames| == |s.frames|
    ensures t.pid in Resident(s)
    ensures Resident(Apply(s, t)) == [t.pid] + Remove(Resident(s), t.pid)
  {
    assert Mapped(s, s.table[t.pid]);
    var i :| 0 <= i < |s.lru| && s.lru[i] == s.table[t.pid];
    HitMovesFrame(s, t, i);
    ResidentNoDup(s);
    RemoveSplits(Resident(s), i);
    assert Resident(s)[i] == t.pid;
    ResidentMoved(Resident(s), Resident(Apply(s, t)), i, s, Apply(s, t));
  }

  lemma ResidentMoved(r: seq<PageId>, r': seq<PageId>, i: nat, s: Pool, v: Pool)
    requires forall j :: 0 <= j < |s.lru| ==> s.lru[j] < |s.frames|
    requires forall j :: 0 <= j < |v.lru| ==> v.lru[j] < |v.frames|
    requires r == Resident(s) && r' == Resident(v) && i < |s.lru| && |v.frames| == |s.frames|
    requires v.lru == [s.lru[i]] + (s.lru[..i] + s.lru[i + 1..])
    requires forall f: nat :: f < |s.frames| ==> v.frames[f].pid == s.frames[f].pid
    ensures r' == [r[i]] + (r[..i] + r[i + 1..])
  {}

  lemma ResidentNoDup(s: Pool)
    requires Idle(s)
    ensures NoDup(Resident(s))
  {
    forall i, j | 0 <= i < j < |s.lru| ensures Resident(s)[i] != Resident(s)[j] {
      assert s.lru[i] in s.lru && s.lru[j] in s.lru;
      assert Mapped(s, s.lru[i]) && Mapped(s, s.lru[j]);
    }
  }

  /** The resident pages are the front of the move-to-front list. */
  ghost predicate Tracks(s: Pool, list: seq<PageId>) {
    Idle(s) && NoDup(list) && Resident(s) == list[..Min(|s.frames|, |list|)]
  }

  /** A page outside the pool is outside the front of the list. */
  lemma MissIsAbsent(s: Pool, list: seq<PageId>, pid: PageId)
    requires Tracks(s, list)
    ensures pid in s.table <==> pid in Resident(s)
    ensures pid !in s.table && s.free != [] ==> pid !in list
  {
    if pid in s.table {
      var f := s.table[pid];
      assert Mapped(s, f);
      var i :| 0 <= i < |s.lru| && s.lru[i] == f;
      assert Resident(s)[i] == pid;
    }
    if pid in Resident(s) {
      var i :| 0 <= i < |s.lru| && Resident(s)[i] == pid;
      assert s.lru[i] in s.lru;
    }
  }

  lemma MissFreeShape(s: Pool, t: Touch)
    requires CanTouch(s, t) && t.pid !in s.table && s.free != []
    ensures var v, f := Apply(s, t), s.free[0];
            && v.lru == [f] + s.lru && v.free == s.free[1..]
            && v.frames == s.frames[f := v.frames[f]]
            && v.frames[f].pid == t.pid && v.frames[f].pin == 0
  {}

  lemma MissEvictShape(s: Pool, t: Touch)
    requires CanTouch(s, t) && t.pid !in s.table && Evicts(s)
    ensures var v, f := Apply(s, t), Victim(s);
            && v.lru == [f] + s.lru[..|s.lru| - 1] && v.free == s.free
            && v.frames == s.frames[f := v.frames[f]]
            && v.frames[f].pid == t.pid && v.frames[f].pin == 0
  {}

  /** A miss with a frame to spare puts the page at the front and drops nobody. */
  lemma MissFreeMoves(s: Pool, t: Touch)
    requires Idle(s) && CanTouch(s, t) && t.pid !in s.table && s.free != []
    ensures Idle(Apply(s, t)) && |Apply(s, t).frames| == |s.frames|
    ensures Resident(Apply(s, t)) == [t.pid] + Resident(s)
  {
    ApplyValid(s, t);
    MissFreeShape(s, t);
    FramesIdle(s, Apply(s, t));
    assert s.free[0] in s.free && s.free[0] !in s.lru;
    ResidentPushed(s, Apply(s, t), s.lru, s.free[0]);
  }

  /** A miss without one drops exactly the last resident page. */
  lemma MissEvictMoves(s: Pool, t: Touch)
    requires Idle(s) && CanTouch(s, t) && t.pid !in s.table && s.free == [] && s.lru != []
    ensures Idle(Apply(s, t)) && |Apply(s, t).frames| == |s.frames|
    ensures Resident(Apply(s, t)) == [t.pid] + Resident(s)[..|s.lru| - 1]
  {
    assert Victim(s) in s.lru;
    ApplyValid(s, t);
    MissEvictShape(s, t);
    FramesIdle(s, Apply(s, t));
    ResidentPushed(s, Apply(s, t), s.lru[..|s.lru| - 1], Victim(s));
  }

  lemma ResidentPushed(s: Pool, v: Pool, kept: seq<nat>, f: nat)
    requires forall j :: 0 <= j < |s.lru| ==> s.lru[j] < |s.frames|
    requires forall j :: 0 <= j < |v.lru| ==> v.lru[j] < |v.frames|
    requires kept <= s.lru && f !in kept && v.lru == [f] + kept
    requires f < |s.frames| && |v.frames| == |s.frames| && v.frames == s.frames[f := v.frames[f]]
    ensures Resident(v) == [v.frames[f].pid] + Resident(s)[..|kept|]
  {
    forall j | 0 <= j < |kept| ensures Resident(v)[j + 1] == Resident(s)[j] {
      assert v.lru[j + 1] == kept[j] == s.lru[j];
    }
  }

  lemma TouchFreeTracks(s: Pool, list: seq<PageId>, t: Touch)
    requires Tracks(s, list) && CanTouch(s, t) && t.pid !in s.table && s.free != []
    ensures Tracks(Apply(s, t), [t.pid] + Remove(list, t.pid))
    ensures |Apply(s, t).frames| == |s.frames|
  {
    RemoveNoDup(list, t.pid);
    MissIsAbsent(s, list, t.pid);
    MissFreeMoves(s, t);
    assert Resident(s) == list && Remove(list, t.pid) == list;
    var list' := [t.pid] + list;
    assert list' == list'[..Min(|s.frames|, |list'|)];
  }

  lemma TouchEvictTracks(s: Pool, list: seq<PageId>, t: Touch)
    requires Tracks(s, list) && CanTouch(s, t) && t.pid !in s.table && s.free == [] && s.lru != []
    ensures Tracks(Apply(s, t), [t.pid] + Remove(list, t.pid))
    ensures |Apply(s, t).frames| == |s.frames|
  {
    RemoveNoDup(list, t.pid);
    MissIsAbsent(s, list, t.pid);
    MissEvictMoves(s, t);
    var n := |s.frames|;
    assert Resident(s) == list[..n];
    FrontMiss(list, t.pid, n);
    assert list[..n][..n - 1] == list[..n - 1];
  }

  lemma TouchMissTracks(s: Pool, list: seq<PageId>, t: Touch)
    requires Tracks(s, list) && CanTouch(s, t) && t.pid !in s.table
    ensures Tracks(Apply(s, t), [t.pid] + Remove(list, t.pid))
    ensures |Apply(s, t).frames| == |s.frames|
  {
    if s.free != [] {
      TouchFreeTracks(s, list, t);
    } else if s.lru != [] {
      TouchEvictTracks(s, list, t);
    } else {
      RemoveNoDup(list, t.pid);
      assert Apply(s, t) == s;
    }
  }

  lemma TouchHitTracks(s: Pool, list: seq<PageId>, t: Touch)
    requires Tracks(s, list) && CanTouch(s, t) && t.pid in s.table
    ensures Tracks(Apply(s, t), [t.pid] + Remove(list, t.pid))
    ensures |Apply(s, t).frames| == |s.frames|
  {
    RemoveNoDup(list, t.pid);
    HitMoves(s, t);
    FrontHit(list, t.pid, Min(|s.frames|, |list|));
  }

  lemma {:induction false} TraceTracks(s: Pool, list: seq<PageId>, trace: seq<Touch>)
    requires Tracks(s, list) && CanTrace(s, trace)
    ensures Tracks(Trace(s, trace), MoveToFront(list, trace))
    ensures |Trace(s, trace).frames| == |s.frames|
    decreases trace
  {
    if trace == [] {
    } else {
      var t := trace[0];
      if t.pid in s.table { TouchHitTracks(s, list, t); } else { TouchMissTracks(s, list, t); }
      TraceTracks(Apply(s, t), [t.pid] + Remove(list, t.pid), trace[1..]);
    }
  }

  /** The distinct pages of a trace. */
  function Pages(trace: seq<Touch>): set<PageId> { set t | t in trace :: t.pid }

  lemma {:induction false} MoveToFrontHolds(list: seq<PageId>, trace: seq<Touch>)
    requires NoDup(list)
    ensures NoDup(MoveToFront(list, trace))
    ensures forall p :: p in MoveToFront(list, trace) <==> p in list || p in Pages(trace)
    decreases trace
  {
    if trace == [] {
    } else {
      var t := trace[0];
      RemoveNoDup(list, t.pid);
      MoveToFrontHolds([t.pid] + Remove(list, t.pid), trace[1..]);
      assert trace == [t] + trace[1..];
      assert Pages(trace) == {t.pid} + Pages(trace[1..]);
    }
  }

  lemma {:induction false} DistinctCount<T>(s: seq<T>, all: set<T>)
    requires NoDup(s) && forall x :: x in s <==> x in all
    ensures |s| == |all|
    decreases s
  {
    if s == [] {
      assert all == {};
    } else {
      assert s == [s[0]] + s[1..] && s[0] !in s[1..];
      DistinctCount(s[1..], all - {s[0]});
    }
  }

  /** The move-to-front list of a trace has each distinct page of the trace exactly once. */
  lemma MoveToFrontExact(trace: seq<Touch>)
    ensures var list := MoveToFront([], trace);
            NoDup(list) && (forall p :: p in list <==> p in Pages(trace)) && |list| == |Pages(trace)|
  {
    MoveToFrontHolds([], trace);
    DistinctCount(MoveToFront([], trace), Pages(trace));
  }

  /** The stack property: after every trace, the resident pages in LRU order are the first
      min(n, distinct) entries of the move-to-front list. */
  lemma ResidentIsMoveToFront(n: nat, disk: Disk, trace: seq<Touch>)
    requires CanTrace(Fresh(n, disk), trace)
    ensures var s := Trace(Fresh(n, disk), trace);
            var list := MoveToFront([], trace);
            && Valid(s)
            && (forall i :: 0 <= i < |s.lru| ==> s.lru[i] < |s.frames|)
            && |list| == |Pages(trace)|
            && Resident(s) == list[..Min(n, |Pages(trace)|)]
            && (forall p :: p in s.table <==> p in Resident(s))
  {
    MoveToFrontExact(trace);
    FreshValid(n, disk);
    assert Tracks(Fresh(n, disk), []);
    TraceTracks(Fresh(n, disk), [], trace);
    var s := Trace(Fresh(n, disk), trace);
    forall p ensures p in s.table <==> p in Resident(s) { MissIsAbsent(s, MoveToFront([], trace), p); }
  }

  /** Two traces that name the same pages in the same order. */
  ghost predicate SamePages(a: seq<Touch>, b: seq<Touch>) {
    |a| == |b| && forall i :: 0 <= i < |a| ==> a[i].pid == b[i].pid
  }

  lemma {:induction false} SameList(list: seq<PageId>, a: seq<Touch>, b: seq<Touch>)
    requires SamePages(a, b)
    ensures MoveToFront(list, a) == MoveToFront(list, b)
    decreases a
  {
    if a == [] {
    } else {
      SameList([a[0].pid] + Remove(list, a[0].pid), a[1..], b[1..]);
    }
  }

  /** No Belady anomaly: every hit with m frames is a hit with any n >= m frames. */
  lemma MoreFramesMoreHits(m: nat, n: nat, disk: Disk, disk': Disk, a: seq<Touch>, b: seq<Touch>, p: PageId)
    requires m <= n && SamePages(a, b)
    requires CanTrace(Fresh(m, disk), a) && CanTrace(Fresh(n, disk'), b)
    requires p in Trace(Fresh(m, disk), a).table
    ensures p in Trace(Fresh(n, disk'), b).table
  {
    ResidentIsMoveToFront(m, disk, a);
    ResidentIsMoveToFront(n, disk', b);
    SameList([], a, b);
    var list := MoveToFront([], a);
    assert list[..Min(m, |list|)] <= list[..Min(n, |list|)];
  }
}
