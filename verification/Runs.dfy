/**
 Runs of any state machine, and the one induction over them that the end-to-end theorems
 need: a property that every step carries along, with a counter, holds after every run.
 */
module Runs {

  ghost predicate IsRun<S(!new), E(!new)>(s: S, events: seq<E>, can: (S, E) -> bool, next: (S, E) -> S)
    decreases events
  {
    events == [] || (can(s, events[0]) && IsRun(next(s, events[0]), events[1..], can, next))
  }

  ghost function Run<S(!new), E(!new)>(s: S, events: seq<E>, next: (S, E) -> S): S
    decreases events
  {
    if events == [] then s else Run(next(s, events[0]), events[1..], next)
  }

  ghost function Total<E>(events: seq<E>, weight: E -> nat): nat {
    if events == [] then 0 else weight(events[0]) + Total(events[1..], weight)
  }

  lemma {:induction false} RunKeeps<S(!new), E(!new)>(
    s: S, m: nat, events: seq<E>, can: (S, E) -> bool, next: (S, E) -> S, weight: E -> nat, inv: (S, nat) -> bool)
    requires inv(s, m) && IsRun(s, events, can, next)
    requires forall t, n: nat, e :: inv(t, n) && can(t, e) ==> inv(next(t, e), n + weight(e))
    ensures inv(Run(s, events, next), m + Total(events, weight))
    decreases events
  {
    if events == [] {
    } else {
      RunKeeps(next(s, events[0]), m + weight(events[0]), events[1..], can, next, weight, inv);
    }
  }

  /** A caller that repeats a call while it returns true: every call made is allowed. */
  ghost predicate IsLoop<S(!new), E(!new)>(s: S, calls: seq<E>, can: (S, E) -> bool, call: (S, E) -> (S, bool))
    decreases calls
  {
    calls == [] ||
    (can(s, calls[0]) && (call(s, calls[0]).1 ==> IsLoop(call(s, calls[0]).0, calls[1..], can, call)))
  }

  /** How often the call returned true. */
  ghost function LoopCount<S(!new), E(!new)>(s: S, calls: seq<E>, call: (S, E) -> (S, bool)): nat
    decreases calls
  {
    if calls == [] || !call(s, calls[0]).1 then 0 else 1 + LoopCount(call(s, calls[0]).0, calls[1..], call)
  }

  /** When every call returns true exactly while a cursor is below c, and moves the cursor,
      the loop runs c times. */
  lemma {:induction false} LoopCounts<S(!new), E(!new)>(
    s: S, i: nat, c: nat, calls: seq<E>, can: (S, E) -> bool, call: (S, E) -> (S, bool), inv: (S, nat) -> bool)
    requires inv(s, i) && i <= c && IsLoop(s, calls, can, call)
    requires forall t, n: nat, e :: inv(t, n) && can(t, e) ==>
               (call(t, e).1 <==> n < c) && (call(t, e).1 ==> inv(call(t, e).0, n + 1))
    ensures LoopCount(s, calls, call) == if |calls| <= c - i then |calls| else c - i
    decreases calls
  {
    if calls != [] && call(s, calls[0]).1 {
      LoopCounts(call(s, calls[0]).0, i + 1, c, calls[1..], can, call, inv);
    }
  }
}
