/**
 The memo of the planner: groups of equivalent expressions over groups, deduplicated by
 hash, and the two rewrite rules. The theorems hold for any hash function; the collision
 they must exclude is shown for the hash the source computes.
 */
module Memo {
  import opened Config

  datatype Operator =
    | LOGICAL_GET | LOGICAL_FILTER | LOGICAL_JOIN | LOGICAL_AGGREGATION
    | PHYSICAL_SEQ_SCAN | PHYSICAL_INDEX_SCAN | PHYSICAL_HASH_JOIN | PHYSICAL_NESTED_LOOP_JOIN

  type GroupId = x: int | 0 <= x < 0x1_0000_0000

  /** An expression's identity is its operator and its child groups, nothing else. */
  datatype Expr = Expr(op: Operator, children: seq<GroupId>)

  // ---------------------------------------------------------------- rules

  datatype Rule = JoinCommutativity | ToHashJoin

  predicate Match(rule: Rule, e: Expr) { e.op == LOGICAL_JOIN }

  function Transform(rule: Rule, e: Expr): seq<Expr> {
    match rule
    case JoinCommutativity =>
      if |e.children| == 2 then [Expr(LOGICAL_JOIN, [e.children[1], e.children[0]])] else []
    case ToHashJoin => [Expr(PHYSICAL_HASH_JOIN, e.children)]
  }

  // ---------------------------------------------------------------- the memo

  /** A hash is a 64-bit word, as size_t is. */
  datatype Word = Word(bits: bv64)

  type Hasher = Expr -> Word

  datatype Stored = Stored(expr: Expr, group: nat)

  datatype Memo = Memo(groups: seq<seq<Expr>>, index: map<Word, Stored>)

  const EMPTY := Memo([], map[])

  /** Group ids start at 1; a target of 0 asks for a new group. */
  predicate TargetOk(m: Memo, target: nat) {
    target <= |m.groups| && |m.groups| + 1 < 0x1_0000_0000
  }

  /** Looks the expression up by hash alone; otherwise stores it in the target group. */
  function Insert(m: Memo, e: Expr, target: nat, hash: Hasher): (Memo, nat)
    requires TargetOk(m, target)
  {
    if hash(e) in m.index then (m, m.index[hash(e)].group)
    else
      var groups := if target == 0 then m.groups + [[]] else m.groups;
      var g := if target == 0 then |m.groups| + 1 else target;
      (Memo(groups[g - 1 := groups[g - 1] + [e]], m.index[hash(e) := Stored(e, g)]), g)
  }

  /** Position i of group g (counted from 0) holds an expression. */
  predicate At(m: Memo, g: int, i: int) { 0 <= g < |m.groups| && 0 <= i < |m.groups[g]| }

  /** Every child group of the expression exists and has a number below g. */
  predicate Below(e: Expr, g: nat) { forall i :: 0 <= i < |e.children| ==> 1 <= e.children[i] < g }

  /** Every stored expression is indexed under its hash, with its group. */
  ghost predicate Indexed(m: Memo, hash: Hasher) {
    && (forall g, i :: At(m, g, i) ==> hash(m.groups[g][i]) in m.index)
    && (forall g, i :: At(m, g, i) ==> m.index[hash(m.groups[g][i])] == Stored(m.groups[g][i], g + 1))
  }

  /** Every index entry is stored. */
  ghost predicate Backed(m: Memo) {
    forall h :: h in m.index ==>
      1 <= m.index[h].group <= |m.groups| && m.index[h].expr in m.groups[m.index[h].group - 1]
  }

  ghost predicate Unique(m: Memo) {
    forall g, i, j :: At(m, g, i) && At(m, g, j) && m.groups[g][i] == m.groups[g][j] ==> i == j
  }

  /** Children are always older groups, so the group graph has no cycle. */
  ghost predicate Layered(m: Memo) {
    && (forall g :: 0 <= g < |m.groups| ==> At(m, g, 0))
    && (forall g, i :: At(m, g, i) ==> Below(m.groups[g][i], g + 1))
  }

  ghost predicate Valid(m: Memo, hash: Hasher) {
    Indexed(m, hash) && Backed(m) && Unique(m) && Layered(m)
  }

  /** Nothing else with the same hash is stored. */
  predicate NoCollision(m: Memo, e: Expr, hash: Hasher) {
    hash(e) in m.index ==> m.index[hash(e)].expr == e
  }

  /** Each pair is stored once over all groups. */
  lemma StoredOnce(m: Memo, hash: Hasher, g: int, i: int, g': int, i': int)
    requires Valid(m, hash) && At(m, g, i) && At(m, g', i') && m.groups[g][i] == m.groups[g'][i']
    ensures g == g' && i == i'
  {
    assert m.index[hash(m.groups[g][i])] == Stored(m.groups[g][i], g + 1);
    assert m.index[hash(m.groups[g'][i'])] == Stored(m.groups[g'][i'], g' + 1);
  }

  /** The caller gets the group that holds the expression exactly when no stored expression
      collides with it; after a collision it gets a group of something else. */
  lemma InsertFindsExact(m: Memo, e: Expr, target: nat, hash: Hasher)
    requires Valid(m, hash) && TargetOk(m, target)
    ensures var (m', g) := Insert(m, e, target, hash);
            1 <= g <= |m'.groups| && (e in m'.groups[g - 1] <==> NoCollision(m, e, hash))
  {
    var (m', g) := Insert(m, e, target, hash);
    if hash(e) in m.index {
      if e in m.groups[g - 1] {
        var i :| 0 <= i < |m.groups[g - 1]| && m.groups[g - 1][i] == e;
        assert At(m, g - 1, i);
      }
    }
  }

  /** Children of a new expression exist already; a target group is newer than all of them. */
  predicate ChildrenOk(m: Memo, e: Expr, target: nat) {
    Below(e, if target == 0 then |m.groups| + 1 else target)
  }

  /** A new expression goes to the end of group g; everything else stays where it is. */
  ghost predicate Extends(m: Memo, m': Memo, e: Expr, g: nat, n: nat) {
    && 1 <= g <= |m'.groups| && |m.groups| <= |m'.groups| <= |m.groups| + 1
    && (|m'.groups| > |m.groups| ==> g == |m'.groups| && n == 0)
    && (forall a, i :: At(m', a, i) <==> At(m, a, i) || (a == g - 1 && i == n))
    && !At(m, g - 1, n) && At(m', g - 1, n)
    && (forall a, i :: At(m, a, i) ==> m'.groups[a][i] == m.groups[a][i])
    && m'.groups[g - 1][n] == e
  }

  /** With a different expression of the same hash stored, an insertion changes nothing and
      returns a group without the expression. */
  lemma CollisionMisplaces(m: Memo, a: Expr, b: Expr, target: nat, hash: Hasher)
    requires Valid(m, hash) && TargetOk(m, target) && a != b && hash(a) == hash(b)
    requires exists g, i :: At(m, g, i) && m.groups[g][i] == a
    ensures var (m', g) := Insert(m, b, target, hash);
            m' == m && 1 <= g <= |m.groups| && b !in m.groups[g - 1]
  {
    var g, i :| At(m, g, i) && m.groups[g][i] == a;
    InsertFindsExact(m, b, target, hash);
  }

  lemma InsertExtends(m: Memo, e: Expr, target: nat, hash: Hasher) returns (n: nat)
    requires TargetOk(m, target) && hash(e) !in m.index
    ensures var (m', g) := Insert(m, e, target, hash);
            && Extends(m, m', e, g, n) && m'.index == m.index[hash(e) := Stored(e, g)]
            && g == if target == 0 then |m.groups| + 1 else target
  {
    n := if target == 0 then 0 else |m.groups[target - 1]|;
  }

  lemma ExtendsIndexed(m: Memo, m': Memo, e: Expr, g: nat, n: nat, hash: Hasher)
    requires Indexed(m, hash) && Extends(m, m', e, g, n)
    requires hash(e) !in m.index && m'.index == m.index[hash(e) := Stored(e, g)]
    ensures Indexed(m', hash)
  {
    forall a, i | At(m', a, i)
      ensures hash(m'.groups[a][i]) in m'.index
      ensures m'.index[hash(m'.groups[a][i])] == Stored(m'.groups[a][i], a + 1)
    {
      if At(m, a, i) { assert hash(m.groups[a][i]) in m.index; }
    }
  }

  lemma ExtendsBacked(m: Memo, m': Memo, e: Expr, g: nat, n: nat, h0: Word)
    requires Backed(m) && Extends(m, m', e, g, n) && m'.index == m.index[h0 := Stored(e, g)]
    ensures Backed(m')
  {
    forall h | h in m'.index
      ensures 1 <= m'.index[h].group <= |m'.groups| && m'.index[h].expr in m'.groups[m'.index[h].group - 1]
    {
      if h != h0 {
        var b := m.index[h].group - 1;
        var i :| 0 <= i < |m.groups[b]| && m.groups[b][i] == m.index[h].expr;
        assert At(m, b, i) && At(m', b, i);
      }
    }
  }

  lemma ExtendsUnique(m: Memo, m': Memo, e: Expr, g: nat, n: nat, hash: Hasher)
    requires Indexed(m, hash) && Unique(m) && Extends(m, m', e, g, n) && hash(e) !in m.index
    ensures Unique(m')
  {
    forall a, i | At(m, a, i) ensures m.groups[a][i] != e {
      assert hash(m.groups[a][i]) in m.index;
    }
  }

  lemma ExtendsLayered(m: Memo, m': Memo, e: Expr, g: nat, n: nat)
    requires Layered(m) && Extends(m, m', e, g, n) && Below(e, g)
    ensures Layered(m')
  {
    forall a | 0 <= a < |m'.groups| ensures At(m', a, 0) {
      if a < |m.groups| { assert At(m, a, 0); }
    }
  }

  lemma InsertValid(m: Memo, e: Expr, target: nat, hash: Hasher)
    requires Valid(m, hash) && TargetOk(m, target) && ChildrenOk(m, e, target)
    ensures Valid(Insert(m, e, target, hash).0, hash)
  {
    if hash(e) !in m.index {
      var n := InsertExtends(m, e, target, hash);
      var (m', g) := Insert(m, e, target, hash);
      ExtendsIndexed(m, m', e, g, n, hash);
      ExtendsBacked(m, m', e, g, n, hash(e));
      ExtendsUnique(m, m', e, g, n, hash);
      ExtendsLayered(m, m', e, g, n);
    }
  }

  // ---------------------------------------------------------------- runs

  /** Either a new expression over existing groups, or the outputs of a rule on a stored one,
      put into its own group. */
  datatype Event = Add(e: Expr) | Apply(rule: Rule, g: nat, i: nat)

  predicate Enabled(m: Memo, ev: Event) {
    TargetOk(m, 0) &&
    match ev
    case Add(e) => ChildrenOk(m, e, 0)
    case Apply(rule, g, i) => At(m, g, i) && Match(rule, m.groups[g][i])
  }

  /** The expressions an event inserts: at most one. */
  function Inserted(m: Memo, ev: Event): Option<Expr>
    requires Enabled(m, ev)
  {
    match ev
    case Add(e) => Some(e)
    case Apply(rule, g, i) =>
      var out := Transform(rule, m.groups[g][i]);
      if out == [] then None else Some(out[0])
  }

  function TargetOf(ev: Event): nat { if ev.Add? then 0 else ev.g + 1 }

  function Step(m: Memo, ev: Event, hash: Hasher): Memo
    requires Enabled(m, ev)
  {
    match Inserted(m, ev)
    case Some(e) => Insert(m, e, TargetOf(ev), hash).0
    case None => m
  }

  /** A rule's outputs have the children of its source, so they fit the source's group. */
  lemma RuleChildrenOk(m: Memo, ev: Event, hash: Hasher)
    requires Valid(m, hash) && Enabled(m, ev) && Inserted(m, ev).Some?
    ensures TargetOk(m, TargetOf(ev)) && ChildrenOk(m, Inserted(m, ev).value, TargetOf(ev))
  {
    if ev.Apply? {
      assert Below(m.groups[ev.g][ev.i], ev.g + 1);
    }
  }

  // ---------------------------------------------------------------- meaning

  type Semantics<!D> = (Operator, seq<D>) -> D

  /** Binary join commutes, and a hash join computes the logical join. */
  ghost predicate Lawful<D(!new)>(sem: Semantics<D>) {
    && (forall a, b :: sem(LOGICAL_JOIN, [a, b]) == sem(LOGICAL_JOIN, [b, a]))
    && (forall xs :: sem(PHYSICAL_HASH_JOIN, xs) == sem(LOGICAL_JOIN, xs))
  }

  /** What a group computes, taken from its first expression. */
  ghost function GroupMeaning<D(!new)>(m: Memo, sem: Semantics<D>, g: nat): D
    requires Layered(m) && 1 <= g <= |m.groups|
    decreases g, 1
  {
    assert At(m, g - 1, 0);
    Meaning(m, sem, m.groups[g - 1][0], g)
  }

  /** What an expression over groups older than g computes. */
  ghost function Meaning<D(!new)>(m: Memo, sem: Semantics<D>, e: Expr, g: nat): D
    requires Layered(m) && g <= |m.groups| + 1
    requires Below(e, g)
    decreases g, 0
  {
    sem(e.op, seq(|e.children|, i requires 0 <= i < |e.children| => GroupMeaning(m, sem, e.children[i])))
  }

  /** All expressions of a group compute the same. */
  ghost predicate Sound<D(!new)>(m: Memo, sem: Semantics<D>)
    requires Layered(m)
  {
    forall g, i :: At(m, g, i) ==> Meaning(m, sem, m.groups[g][i], g + 1) == GroupMeaning(m, sem, g + 1)
  }

  ghost predicate SameHeads(m: Memo, m': Memo) {
    |m.groups| <= |m'.groups| &&
    forall a :: 0 <= a < |m.groups| ==> At(m, a, 0) && At(m', a, 0) && m'.groups[a][0] == m.groups[a][0]
  }

  /** Meanings depend only on the first expressions of older groups. */
  lemma {:induction false} MeaningStable<D(!new)>(m: Memo, m': Memo, sem: Semantics<D>, e: Expr, g: nat)
    requires Layered(m) && Layered(m') && SameHeads(m, m') && g <= |m.groups| + 1 && Below(e, g)
    ensures Meaning(m, sem, e, g) == Meaning(m', sem, e, g)
    decreases g, 0
  {
    var xs := Arguments(m, sem, e, g);
    var ys := Arguments(m', sem, e, g);
    forall i | 0 <= i < |e.children| ensures xs[i] == ys[i] {
      GroupMeaningStable(m, m', sem, e.children[i], g);
    }
    assert xs == ys;
  }

  lemma {:induction false} GroupMeaningStable<D(!new)>(m: Memo, m': Memo, sem: Semantics<D>, c: nat, g: nat)
    requires Layered(m) && Layered(m') && SameHeads(m, m') && 1 <= c < g <= |m.groups| + 1
    ensures GroupMeaning(m, sem, c) == GroupMeaning(m', sem, c)
    decreases c, 1
  {
    assert At(m, c - 1, 0) && Below(m.groups[c - 1][0], c);
    MeaningStable(m, m', sem, m.groups[c - 1][0], c);
  }

  lemma Arguments<D(!new)>(m: Memo, sem: Semantics<D>, e: Expr, g: nat) returns (xs: seq<D>)
    requires Layered(m) && g <= |m.groups| + 1 && Below(e, g)
    ensures |xs| == |e.children| && Meaning(m, sem, e, g) == sem(e.op, xs)
    ensures forall i :: 0 <= i < |xs| ==> xs[i] == GroupMeaning(m, sem, e.children[i])
  {
    xs := seq(|e.children|, i requires 0 <= i < |e.children| => GroupMeaning(m, sem, e.children[i]));
  }

  /** Both rules preserve meaning under every lawful semantics. */
  lemma RulePreservesMeaning<D(!new)>(m: Memo, sem: Semantics<D>, rule: Rule, e: Expr, g: nat)
    requires Layered(m) && g <= |m.groups| + 1 && Below(e, g) && Lawful(sem) && Match(rule, e)
    ensures forall out :: out in Transform(rule, e) ==>
              Below(out, g) && Meaning(m, sem, out, g) == Meaning(m, sem, e, g)
  {
    forall out | out in Transform(rule, e)
      ensures Below(out, g) && Meaning(m, sem, out, g) == Meaning(m, sem, e, g)
    {
      var xs := Arguments(m, sem, e, g);
      var ys := Arguments(m, sem, out, g);
      if rule == JoinCommutativity {
        assert xs == [xs[0], xs[1]] && ys == [xs[1], xs[0]];
      } else {
        assert xs == ys;
      }
    }
  }

  /** The insertion of an expression with its group's meaning keeps every group sound. */
  lemma ExtendsSound<D(!new)>(m: Memo, m': Memo, sem: Semantics<D>, e: Expr, g: nat, n: nat)
    requires Layered(m) && Layered(m') && Extends(m, m', e, g, n) && Sound(m, sem)
    requires g <= |m.groups| ==> Below(e, g) && Meaning(m, sem, e, g) == GroupMeaning(m, sem, g)
    ensures Sound(m', sem)
  {
    ExtendsHeads(m, m', e, g, n);
    forall a, i | At(m', a, i)
      ensures Meaning(m', sem, m'.groups[a][i], a + 1) == GroupMeaning(m', sem, a + 1)
    {
      if a < |m.groups| {
        GroupMeaningStable(m, m', sem, a + 1, a + 2);
        assert Below(m'.groups[a][i], a + 1);
        MeaningStable(m, m', sem, m'.groups[a][i], a + 1);
        if At(m, a, i) { assert m'.groups[a][i] == m.groups[a][i]; }
      }
    }
  }

  lemma ExtendsHeads(m: Memo, m': Memo, e: Expr, g: nat, n: nat)
    requires Layered(m) && Extends(m, m', e, g, n)
    ensures SameHeads(m, m')
  {
    forall a | 0 <= a < |m.groups| ensures At(m', a, 0) && m'.groups[a][0] == m.groups[a][0] { assert At(m, a, 0); }
  }

  /** An expression stored in a group means what the group means. */
  lemma StoredMeaning<D(!new)>(m: Memo, e: Expr, g: nat, sem: Semantics<D>)
    requires Layered(m) && Sound(m, sem) && 1 <= g <= |m.groups| && e in m.groups[g - 1]
    ensures Below(e, |m.groups| + 1) && GroupMeaning(m, sem, g) == Meaning(m, sem, e, |m.groups| + 1)
  {
    var i :| 0 <= i < |m.groups[g - 1]| && m.groups[g - 1][i] == e;
    assert At(m, g - 1, i);
    var xs := Arguments(m, sem, e, g);
    var ys := Arguments(m, sem, e, |m.groups| + 1);
    assert xs == ys;
  }

  /** What the caller of an insertion relies on: without a collision, the group it gets back
      computes what the expression does. */
  lemma InsertReturnsMeaning<D(!new)>(m: Memo, e: Expr, sem: Semantics<D>, hash: Hasher)
    requires Valid(m, hash) && Sound(m, sem) && TargetOk(m, 0) && ChildrenOk(m, e, 0) && NoCollision(m, e, hash)
    ensures var (m', g) := Insert(m, e, 0, hash);
            && Layered(m') && 1 <= g <= |m'.groups|
            && GroupMeaning(m', sem, g) == Meaning(m, sem, e, |m.groups| + 1)
  {
    var (m', g) := Insert(m, e, 0, hash);
    InsertValid(m, e, 0, hash);
    if hash(e) in m.index {
      InsertFindsExact(m, e, 0, hash);
      StoredMeaning(m, e, g, sem);
    } else {
      var n := InsertExtends(m, e, 0, hash);
      ExtendsHeads(m, m', e, g, n);
      MeaningStable(m, m', sem, e, g);
    }
  }

  /** An insertion keeps the memo sound when the expression means what its target group does. */
  lemma InsertSound<D(!new)>(m: Memo, e: Expr, target: nat, sem: Semantics<D>, hash: Hasher)
    requires Valid(m, hash) && Sound(m, sem) && TargetOk(m, target) && ChildrenOk(m, e, target)
    requires target != 0 ==> Meaning(m, sem, e, target) == GroupMeaning(m, sem, target)
    ensures var m' := Insert(m, e, target, hash).0; Valid(m', hash) && Sound(m', sem)
  {
    InsertValid(m, e, target, hash);
    if hash(e) !in m.index {
      var n := InsertExtends(m, e, target, hash);
      var (m', g) := Insert(m, e, target, hash);
      ExtendsSound(m, m', sem, e, g, n);
    }
  }

  lemma StepSound<D(!new)>(m: Memo, ev: Event, sem: Semantics<D>, hash: Hasher)
    requires Valid(m, hash) && Enabled(m, ev) && Sound(m, sem) && Lawful(sem)
    ensures Valid(Step(m, ev, hash), hash) && Sound(Step(m, ev, hash), sem)
  {
    if Inserted(m, ev).Some? {
      var e := Inserted(m, ev).value;
      RuleChildrenOk(m, ev, hash);
      if ev.Apply? {
        var source := m.groups[ev.g][ev.i];
        assert At(m, ev.g, ev.i);
        RulePreservesMeaning(m, sem, ev.rule, source, ev.g + 1);
        assert e in Transform(ev.rule, source);
      }
      InsertSound(m, e, TargetOf(ev), sem, hash);
    }
  }

  predicate IsRun(m: Memo, events: seq<Event>, hash: Hasher)
    decreases events
  {
    events == [] || (Enabled(m, events[0]) && IsRun(Step(m, events[0], hash), events[1..], hash))
  }

  function Run(m: Memo, events: seq<Event>, hash: Hasher): Memo
    requires IsRun(m, events, hash)
    decreases events
  {
    if events == [] then m else Run(Step(m, events[0], hash), events[1..], hash)
  }

  /** Plan meaning is preserved: in every memo reached by adding expressions and applying
      rules, the group graph is acyclic, pairs are stored once, and all expressions of a
      group compute the same under every lawful semantics, for every hash function. */
  lemma {:induction false} RunSound<D(!new)>(m: Memo, events: seq<Event>, sem: Semantics<D>, hash: Hasher)
    requires Valid(m, hash) && Sound(m, sem) && Lawful(sem) && IsRun(m, events, hash)
    ensures Valid(Run(m, events, hash), hash) && Sound(Run(m, events, hash), sem)
    decreases events
  {
    if events == [] {
    } else {
      StepSound(m, events[0], sem, hash);
      RunSound(Step(m, events[0], hash), events[1..], sem, hash);
    }
  }

  // ---------------------------------------------------------------- plans

  /** A plan tree, one operator per node. */
  datatype Plan = Plan(op: Operator, inputs: seq<Plan>)

  ghost function PlanMeaning<D(!new)>(p: Plan, sem: Semantics<D>): D {
    sem(p.op, seq(|p.inputs|, i requires 0 <= i < |p.inputs| => PlanMeaning(p.inputs[i], sem)))
  }

  /** The plan picks one expression of group g and, below it, plans of its child groups. */
  ghost predicate PlanOf(m: Memo, g: nat, p: Plan)
    decreases p
  {
    1 <= g <= |m.groups| &&
    exists e :: e in m.groups[g - 1] && e.op == p.op && |e.children| == |p.inputs| &&
      forall j :: 0 <= j < |p.inputs| ==> PlanOf(m, e.children[j], p.inputs[j])
  }

  /** Every plan that can be read off a group computes what the group means, so the choice
      among them never changes a result. */
  lemma {:induction false} PlansAgree<D(!new)>(m: Memo, sem: Semantics<D>, g: nat, p: Plan)
    requires Layered(m) && Sound(m, sem) && PlanOf(m, g, p)
    ensures PlanMeaning(p, sem) == GroupMeaning(m, sem, g)
    decreases p
  {
    var e :| e in m.groups[g - 1] && e.op == p.op && |e.children| == |p.inputs| &&
      forall j :: 0 <= j < |p.inputs| ==> PlanOf(m, e.children[j], p.inputs[j]);
    var i :| 0 <= i < |m.groups[g - 1]| && m.groups[g - 1][i] == e;
    assert At(m, g - 1, i);
    var xs := Arguments(m, sem, e, g);
    var ys := seq(|p.inputs|, i requires 0 <= i < |p.inputs| => PlanMeaning(p.inputs[i], sem));
    forall j | 0 <= j < |p.inputs| ensures xs[j] == ys[j] { PlansAgree(m, sem, e.children[j], p.inputs[j]); }
    assert xs == ys;
  }

  /** In every memo reached from the empty one, all plans of a group compute the same. */
  lemma ReachablePlansAgree<D(!new)>(events: seq<Event>, sem: Semantics<D>, hash: Hasher, g: nat, p: Plan, q: Plan)
    requires Lawful(sem) && IsRun(EMPTY, events, hash)
    requires PlanOf(Run(EMPTY, events, hash), g, p) && PlanOf(Run(EMPTY, events, hash), g, q)
    ensures PlanMeaning(p, sem) == PlanMeaning(q, sem)
  {
    RunSound(EMPTY, events, sem, hash);
    var m := Run(EMPTY, events, hash);
    PlansAgree(m, sem, g, p);
    PlansAgree(m, sem, g, q);
  }

  // ---------------------------------------------------------------- the hash of the source

  function OpCode(op: Operator): bv64 {
    match op
    case LOGICAL_GET => 0 case LOGICAL_FILTER => 1 case LOGICAL_JOIN => 2 case LOGICAL_AGGREGATION => 3
    case PHYSICAL_SEQ_SCAN => 4 case PHYSICAL_INDEX_SCAN => 5 case PHYSICAL_HASH_JOIN => 6
    case PHYSICAL_NESTED_LOOP_JOIN => 7
  }

  /** One round of the fold; integers hash to themselves. */
  function Mix(h: bv64, child: bv64): bv64 {
    h ^ (child + 0x9e3779b9 + (h << 6) + (h >> 2))
  }

  function MixChild(h: bv64, child: GroupId): bv64 { Mix(h, child as bv64) }

  /** The fold over the first n children, whatever a round does. */
  function Fold(h: bv64, mix: (bv64, GroupId) -> bv64, children: seq<GroupId>, n: nat): bv64
    requires n <= |children|
  {
    if n == 0 then h else mix(Fold(h, mix, children, n - 1), children[n - 1])
  }

  function Hash(e: Expr): Word { Word(Fold(OpCode(e.op), MixChild, e.children, |e.children|)) }

  method FoldChildren(start: bv64, mix: (bv64, GroupId) -> bv64, children: seq<GroupId>) returns (h: bv64)
    ensures h == Fold(start, mix, children, |children|)
  {
    h := start;
    var i := 0;
    while i < |children|
      invariant 0 <= i <= |children| && h == Fold(start, mix, children, i)
    {
      h := mix(h, children[i]);
      i := i + 1;
    }
  }

  method ComputeHash(e: Expr) returns (h: Word)
    ensures h == Hash(e)
  {
    var bits := FoldChildren(OpCode(e.op), MixChild, e.children);
    h := Word(bits);
  }

  /** The hash does collide, on small joins already: join(1, 66) and join(2, 1). */
  lemma JoinsCollide()
    ensures Hash(Expr(LOGICAL_JOIN, [1, 66])) == Hash(Expr(LOGICAL_JOIN, [2, 1]))
  {
    var a, b: seq<GroupId> := [1, 66], [2, 1];
    assert Fold(2, MixChild, a, 1) == Mix(Fold(2, MixChild, a, 0), 1);
    assert Fold(2, MixChild, a, 2) == Mix(Fold(2, MixChild, a, 1), 66);
    assert Fold(2, MixChild, b, 1) == Mix(Fold(2, MixChild, b, 0), 2);
    assert Fold(2, MixChild, b, 2) == Mix(Fold(2, MixChild, b, 1), 1);
  }

  /** So a memo that stores join(1, 66) answers an insertion of join(2, 1) with a group that
      does not hold it, and stores it nowhere. */
  lemma JoinCollisionMisplaces(m: Memo, target: nat)
    requires Valid(m, Hash) && TargetOk(m, target)
    requires exists g, i :: At(m, g, i) && m.groups[g][i] == Expr(LOGICAL_JOIN, [1, 66])
    ensures var (m', g) := Insert(m, Expr(LOGICAL_JOIN, [2, 1]), target, Hash);
            m' == m && 1 <= g <= |m.groups| && Expr(LOGICAL_JOIN, [2, 1]) !in m.groups[g - 1]
  {
    JoinsCollide();
    TwoJoinsMisplace(m, target, Hash);
  }

  lemma TwoJoinsMisplace(m: Memo, target: nat, hash: Hasher)
    requires Valid(m, hash) && TargetOk(m, target)
    requires hash(Expr(LOGICAL_JOIN, [1, 66])) == hash(Expr(LOGICAL_JOIN, [2, 1]))
    requires exists g, i :: At(m, g, i) && m.groups[g][i] == Expr(LOGICAL_JOIN, [1, 66])
    ensures var (m', g) := Insert(m, Expr(LOGICAL_JOIN, [2, 1]), target, hash);
            m' == m && 1 <= g <= |m.groups| && Expr(LOGICAL_JOIN, [2, 1]) !in m.groups[g - 1]
  {
    assert [1, 66][0] != [2, 1][0];
    CollisionMisplaces(m, Expr(LOGICAL_JOIN, [1, 66]), Expr(LOGICAL_JOIN, [2, 1]), target, hash);
  }

  // ---------------------------------------------------------------- the memo object

  class MemoTable {
    const hash: Hasher
    var groups: seq<seq<Expr>>
    var index: map<Word, Stored>

    ghost function Abs(): Memo
      reads this
    {
      Memo(groups, index)
    }

    constructor (hash: Hasher)
      ensures this.hash == hash && Abs() == EMPTY && Valid(Abs(), hash)
    {
      this.hash, groups, index := hash, [], map[];
    }

    method InsertExpression(e: Expr, target: nat) returns (g: nat)
      requires Valid(Abs(), hash) && TargetOk(Abs(), target) && ChildrenOk(Abs(), e, target)
      modifies this
      ensures (Abs(), g) == Insert(old(Abs()), e, target, hash)
      ensures Valid(Abs(), hash)
      ensures 1 <= g <= |groups| && (e in groups[g - 1] <==> NoCollision(old(Abs()), e, hash))
    {
      InsertValid(Abs(), e, target, hash);
      InsertFindsExact(Abs(), e, target, hash);
      var h := hash(e);
      if h in index { return index[h].group; }
      g := target;
      if g == 0 {
        g := |groups| + 1;
        groups := groups + [[]];
      }
      index := index[h := Stored(e, g)];
      groups := groups[g - 1 := groups[g - 1] + [e]];
    }
  }
}
