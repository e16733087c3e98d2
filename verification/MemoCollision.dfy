/**
 A run of the memo from empty that ends in a misplaced expression: the computed hashes of
 aggregation(3, 8) and aggregation(8, 4) are the same, and a scan with seven filters on top
 makes the eight groups.
 */
module MemoCollision {
  import opened Config
  import opened Memo
  import MR = MemoRules

  /** A scan at the bottom, then a filter over the level below. */
  function Level(n: nat): Expr
    requires 1 <= n <= 8
  {
    if n == 1 then Expr(LOGICAL_GET, []) else Expr(LOGICAL_FILTER, [n - 1])
  }

  function TowerEvents(n: nat): seq<Event>
    requires n <= 8
  {
    if n == 0 then [] else TowerEvents(n - 1) + [Add(Level(n))]
  }

  function First(): Expr { Expr(LOGICAL_AGGREGATION, [3, 8]) }

  function Second(): Expr { Expr(LOGICAL_AGGREGATION, [8, 4]) }

  /** The hash tells the levels and the first aggregation apart. */
  ghost predicate TellsApart(hash: Hasher) {
    && (forall j: nat, k: nat :: 1 <= j < k <= 8 ==> hash(Level(j)) != hash(Level(k)))
    && (forall k: nat :: 1 <= k <= 8 ==> hash(Level(k)) != hash(First()))
  }

  /** The memo has n groups and indexes only the levels up to n. */
  ghost predicate IsTower(m: Memo, n: nat, hash: Hasher)
    requires n <= 8
  {
    && Valid(m, hash) && |m.groups| == n
    && forall h :: h in m.index ==> exists k: nat :: 1 <= k <= n && h == hash(Level(k))
  }

  lemma {:induction false} RunExtends(m: Memo, events: seq<Event>, e: Event, hash: Hasher)
    requires IsRun(m, events, hash) && Enabled(Run(m, events, hash), e)
    ensures IsRun(m, events + [e], hash) && Run(m, events + [e], hash) == Step(Run(m, events, hash), e, hash)
    decreases events
  {
    if events == [] {
      assert IsRun(Step(m, e, hash), [], hash);
      assert [e][1..] == [];
    } else {
      RunExtends(Step(m, events[0], hash), events[1..], e, hash);
      assert (events + [e])[1..] == events[1..] + [e];
    }
  }

  lemma {:induction false} TowerRuns(n: nat, hash: Hasher)
    requires n <= 8 && TellsApart(hash)
    ensures IsRun(EMPTY, TowerEvents(n), hash) && IsTower(Run(EMPTY, TowerEvents(n), hash), n, hash)
  {
    if n == 0 {
    } else {
      TowerRuns(n - 1, hash);
      LevelGoesUp(Run(EMPTY, TowerEvents(n - 1), hash), n, hash);
      RunExtends(EMPTY, TowerEvents(n - 1), Add(Level(n)), hash);
    }
  }

  lemma LevelGoesUp(m: Memo, n: nat, hash: Hasher)
    requires 1 <= n <= 8 && TellsApart(hash) && IsTower(m, n - 1, hash)
    ensures Enabled(m, Add(Level(n))) && IsTower(Step(m, Add(Level(n)), hash), n, hash)
  {
    InsertValid(m, Level(n), 0, hash);
    var m' := Step(m, Add(Level(n)), hash);
    forall h | h in m'.index ensures exists k: nat :: 1 <= k <= n && h == hash(Level(k)) {
      if h in m.index {
        var k: nat :| 1 <= k <= n - 1 && h == hash(Level(k));
      }
    }
  }

  /** The first aggregation goes on top of the tower, in a group of its own. */
  lemma FirstGoesUp(m: Memo, n: nat, hash: Hasher)
    requires n == 8 && TellsApart(hash) && IsTower(m, n, hash)
    ensures Enabled(m, Add(First()))
    ensures var m' := Step(m, Add(First()), hash);
            Valid(m', hash) && |m'.groups| == n + 1 && At(m', n, 0) && m'.groups[n][0] == First()
  {
    InsertValid(m, First(), 0, hash);
  }

  /** With a hash that confuses the two aggregations, a run that adds the tower and the first
      one leads to a memo that answers the second one with a group that does not hold it. */
  lemma TowerMisplaces(n: nat, hash: Hasher)
    requires n == 8 && TellsApart(hash) && hash(First()) == hash(Second())
    ensures var events := TowerEvents(n) + [Add(First())];
            && IsRun(EMPTY, events, hash)
            && Misplaces(Run(EMPTY, events, hash), Second(), hash)
  {
    TowerRuns(n, hash);
    var t := Run(EMPTY, TowerEvents(n), hash);
    FirstGoesUp(t, n, hash);
    RunExtends(EMPTY, TowerEvents(n), Add(First()), hash);
    assert First().children[0] != Second().children[0];
    CollisionMisplaces(Step(t, Add(First()), hash), First(), Second(), 0, hash);
  }

  /** Adding the expression is allowed, changes nothing, and returns a group without it. */
  ghost predicate Misplaces(m: Memo, e: Expr, hash: Hasher) {
    && Enabled(m, Add(e))
    && var (m', g) := Insert(m, e, 0, hash);
       m' == m && 1 <= g <= |m.groups| && e !in m.groups[g - 1]
  }

  // ---------------------------------------------------------------- the computed hash

  lemma AggregationWords()
    ensures Mix(Mix(3, 3), 8) == 0x28cd94825f && Mix(Mix(3, 8), 4) == 0x28cd94825f
  {}

  /** What a hash has to give for the tower and the two aggregations. */
  ghost predicate HasValues(hash: Hasher) {
    && LevelValues(hash)
    && hash(Expr(LOGICAL_AGGREGATION, [3, 8])).bits == 0x28cd94825f
    && hash(Expr(LOGICAL_AGGREGATION, [8, 4])).bits == 0x28cd94825f
  }

  ghost predicate LevelValues(hash: Hasher) {
    && hash(Expr(LOGICAL_GET, [])).bits == 0
    && hash(Expr(LOGICAL_FILTER, [1])).bits == 0x9e3779fb && hash(Expr(LOGICAL_FILTER, [2])).bits == 0x9e3779fa
    && hash(Expr(LOGICAL_FILTER, [3])).bits == 0x9e3779fd && hash(Expr(LOGICAL_FILTER, [4])).bits == 0x9e3779fc
    && hash(Expr(LOGICAL_FILTER, [5])).bits == 0x9e3779ff && hash(Expr(LOGICAL_FILTER, [6])).bits == 0x9e3779fe
    && hash(Expr(LOGICAL_FILTER, [7])).bits == 0x9e377a01
  }

  lemma HashOfLevels()
    ensures LevelValues(Hash)
  {
    MR.SingleHash(LOGICAL_FILTER, 1);
    MR.SingleHash(LOGICAL_FILTER, 2);
    MR.SingleHash(LOGICAL_FILTER, 3);
    MR.SingleHash(LOGICAL_FILTER, 4);
    MR.SingleHash(LOGICAL_FILTER, 5);
    MR.SingleHash(LOGICAL_FILTER, 6);
    MR.SingleHash(LOGICAL_FILTER, 7);
  }

  lemma HashHasValues()
    ensures HasValues(Hash)
  {
    HashOfLevels();
    AggregationWords();
    MR.PairHash(LOGICAL_AGGREGATION, 3, 8);
    MR.PairHash(LOGICAL_AGGREGATION, 8, 4);
  }

  lemma ValuesMisplace(n: nat, hash: Hasher)
    requires n == 8 && HasValues(hash)
    ensures var events := TowerEvents(n) + [Add(First())];
            IsRun(EMPTY, events, hash) && Misplaces(Run(EMPTY, events, hash), Second(), hash)
  {
    TowerMisplaces(n, hash);
  }

  /** So the computed hash does misplace an expression, on a run from the empty memo that
      makes n groups first. */
  lemma RunMisplaces(n: nat)
    requires n == 8
    ensures var events := TowerEvents(n) + [Add(First())];
            IsRun(EMPTY, events, Hash) && Misplaces(Run(EMPTY, events, Hash), Second(), Hash)
  {
    HashHasValues();
    ValuesMisplace(n, Hash);
  }
}
