/**
 The rewrite rules at work: after a rule is applied, the group offers the new plan, exactly
 unless another expression or another group stands in the way.
 */
module MemoRules {
  import opened Config
  import opened Memo

  /** Groups only gain expressions. */
  ghost predicate Grows(m: Memo, m': Memo) {
    && |m.groups| <= |m'.groups|
    && forall g, e :: 0 <= g < |m.groups| && e in m.groups[g] ==> e in m'.groups[g]
  }

  lemma StepGrows(m: Memo, ev: Event, hash: Hasher)
    requires Valid(m, hash) && Enabled(m, ev)
    ensures Grows(m, Step(m, ev, hash))
  {}

  /** A plan once on offer stays on offer. */
  lemma {:induction false} PlanStays(m: Memo, m': Memo, g: nat, p: Plan)
    requires Grows(m, m') && PlanOf(m, g, p)
    ensures PlanOf(m', g, p)
    decreases p
  {
    var e :| e in m.groups[g - 1] && e.op == p.op && |e.children| == |p.inputs| &&
      forall j :: 0 <= j < |p.inputs| ==> PlanOf(m, e.children[j], p.inputs[j]);
    forall j | 0 <= j < |p.inputs| ensures PlanOf(m', e.children[j], p.inputs[j]) {
      PlanStays(m, m', e.children[j], p.inputs[j]);
    }
  }

  /** Nothing keeps the expression out of group g: its hash is new, or stands for the
      expression itself in that very group. */
  predicate Welcome(m: Memo, e: Expr, g: nat, hash: Hasher) {
    hash(e) in m.index ==> m.index[hash(e)] == Stored(e, g)
  }

  /** The expression a rule yields ends up in its source's group exactly if it is welcome:
      groups are never merged, and a hash in use wins. */
  lemma ApplyExact(m: Memo, rule: Rule, g: nat, i: nat, hash: Hasher)
    requires Valid(m, hash) && Enabled(m, Apply(rule, g, i)) && Inserted(m, Apply(rule, g, i)).Some?
    ensures var e := Inserted(m, Apply(rule, g, i)).value;
            var m' := Step(m, Apply(rule, g, i), hash);
            g < |m'.groups| && (e in m'.groups[g] <==> Welcome(m, e, g + 1, hash))
  {
    var e := Inserted(m, Apply(rule, g, i)).value;
    if hash(e) in m.index && e in m.groups[g] {
      var j :| 0 <= j < |m.groups[g]| && m.groups[g][j] == e;
      assert At(m, g, j);
    }
  }

  /** Commuting twice gives the join back, and commuting changes it unless both sides are the
      same group. */
  lemma CommutesBack(a: GroupId, b: GroupId)
    ensures var join := Expr(LOGICAL_JOIN, [a, b]);
            && Match(JoinCommutativity, join) && |Transform(JoinCommutativity, join)| == 1
            && var swapped := Transform(JoinCommutativity, join)[0];
               && Transform(JoinCommutativity, swapped) == [join]
               && (swapped == join <==> a == b)
  {
    var swapped := Transform(JoinCommutativity, Expr(LOGICAL_JOIN, [a, b]))[0];
    assert swapped.children[0] == b && swapped.children[1] == a;
    assert Transform(JoinCommutativity, swapped)[0].children == [a, b];
  }

  /** Position i of group g holds a join of two groups that offer the plans p and q. */
  ghost predicate Joins(m: Memo, g: nat, i: nat, p: Plan, q: Plan) {
    && At(m, g, i) && m.groups[g][i].op == LOGICAL_JOIN && |m.groups[g][i].children| == 2
    && PlanOf(m, m.groups[g][i].children[0], p) && PlanOf(m, m.groups[g][i].children[1], q)
  }

  lemma PlanOfPair(m: Memo, g: nat, e: Expr, p: Plan, q: Plan)
    requires 1 <= g <= |m.groups| && e in m.groups[g - 1] && |e.children| == 2
    requires PlanOf(m, e.children[0], p) && PlanOf(m, e.children[1], q)
    ensures PlanOf(m, g, Plan(e.op, [p, q]))
  {
    var plan := Plan(e.op, [p, q]);
    forall j | 0 <= j < |plan.inputs| ensures PlanOf(m, e.children[j], plan.inputs[j]) {}
  }

  /** An expression new in a group puts the plans of its children together. */
  lemma NewPairPlan(m: Memo, m': Memo, g: nat, e: Expr, p: Plan, q: Plan)
    requires Grows(m, m') && 1 <= g <= |m'.groups| && e in m'.groups[g - 1] && |e.children| == 2
    requires PlanOf(m, e.children[0], p) && PlanOf(m, e.children[1], q)
    ensures PlanOf(m', g, Plan(e.op, [p, q]))
  {
    PlanStays(m, m', e.children[0], p);
    PlanStays(m, m', e.children[1], q);
    PlanOfPair(m', g, e, p, q);
  }

  /** After the commutativity rule the group also offers the join the other way round. */
  lemma CommutativityFires(m: Memo, g: nat, i: nat, p: Plan, q: Plan, hash: Hasher)
    requires Valid(m, hash) && TargetOk(m, 0) && Joins(m, g, i, p, q)
    requires Welcome(m, Swapped(m.groups[g][i]), g + 1, hash)
    ensures Enabled(m, Apply(JoinCommutativity, g, i))
    ensures PlanOf(Step(m, Apply(JoinCommutativity, g, i), hash), g + 1, Plan(LOGICAL_JOIN, [q, p]))
  {
    var ev := Apply(JoinCommutativity, g, i);
    ApplyExact(m, JoinCommutativity, g, i, hash);
    StepGrows(m, ev, hash);
    NewPairPlan(m, Step(m, ev, hash), g + 1, Swapped(m.groups[g][i]), q, p);
  }

  /** After the implementation rule the group also offers the hash join. */
  lemma HashJoinFires(m: Memo, g: nat, i: nat, p: Plan, q: Plan, hash: Hasher)
    requires Valid(m, hash) && TargetOk(m, 0) && Joins(m, g, i, p, q)
    requires Welcome(m, Hashed(m.groups[g][i]), g + 1, hash)
    ensures Enabled(m, Apply(ToHashJoin, g, i))
    ensures PlanOf(Step(m, Apply(ToHashJoin, g, i), hash), g + 1, Plan(PHYSICAL_HASH_JOIN, [p, q]))
  {
    var ev := Apply(ToHashJoin, g, i);
    ApplyExact(m, ToHashJoin, g, i, hash);
    StepGrows(m, ev, hash);
    NewPairPlan(m, Step(m, ev, hash), g + 1, Hashed(m.groups[g][i]), p, q);
  }

  /** Expressions keep their places. */
  lemma StepKeepsPlace(m: Memo, ev: Event, hash: Hasher, g: nat, i: nat)
    requires Valid(m, hash) && Enabled(m, ev) && At(m, g, i)
    ensures At(Step(m, ev, hash), g, i) && Step(m, ev, hash).groups[g][i] == m.groups[g][i]
  {}

  /** The join the other way round, and as a hash join. */
  function Swapped(e: Expr): Expr
    requires |e.children| == 2
  {
    Expr(LOGICAL_JOIN, [e.children[1], e.children[0]])
  }

  function Hashed(e: Expr): Expr { Expr(PHYSICAL_HASH_JOIN, e.children) }

  /** The commutativity rule leaves everything in place and the hash join welcome. */
  lemma FirstStep(m: Memo, g: nat, i: nat, hash: Hasher)
    requires Valid(m, hash) && TargetOk(m, 0) && At(m, g, i)
    requires m.groups[g][i].op == LOGICAL_JOIN && |m.groups[g][i].children| == 2
    requires var e := m.groups[g][i]; Welcome(m, Hashed(e), g + 1, hash) && hash(Swapped(e)) != hash(Hashed(e))
    ensures Enabled(m, Apply(JoinCommutativity, g, i))
    ensures var m1 := Step(m, Apply(JoinCommutativity, g, i), hash);
            && Valid(m1, hash) && TargetOk(m1, 0) && Grows(m, m1)
            && At(m1, g, i) && m1.groups[g][i] == m.groups[g][i]
            && Welcome(m1, Hashed(m.groups[g][i]), g + 1, hash)
  {
    var ev := Apply(JoinCommutativity, g, i);
    StepValid(m, ev, hash);
    StepKeepsPlace(m, ev, hash, g, i);
    StepGrows(m, ev, hash);
    OthersStayWelcome(m, Swapped(m.groups[g][i]), g + 1, Hashed(m.groups[g][i]), hash);
  }

  lemma StepValid(m: Memo, ev: Event, hash: Hasher)
    requires Valid(m, hash) && Enabled(m, ev)
    ensures Valid(Step(m, ev, hash), hash) && |Step(m, ev, hash).groups| <= |m.groups| + 1
    ensures ev.Apply? ==> |Step(m, ev, hash).groups| == |m.groups|
  {
    if Inserted(m, ev).Some? {
      RuleChildrenOk(m, ev, hash);
      InsertValid(m, Inserted(m, ev).value, TargetOf(ev), hash);
    }
  }

  lemma OthersStayWelcome(m: Memo, e: Expr, g: nat, other: Expr, hash: Hasher)
    requires TargetOk(m, g) && Welcome(m, other, g, hash) && hash(e) != hash(other)
    ensures Welcome(Insert(m, e, g, hash).0, other, g, hash)
  {}

  lemma JoinsStays(m: Memo, m': Memo, g: nat, i: nat, p: Plan, q: Plan)
    requires Joins(m, g, i, p, q) && Grows(m, m') && At(m', g, i) && m'.groups[g][i] == m.groups[g][i]
    ensures Joins(m', g, i, p, q)
  {
    PlanStays(m, m', m.groups[g][i].children[0], p);
    PlanStays(m, m', m.groups[g][i].children[1], q);
  }

  /** What both rules ask of the memo: a join of two groups that offer p and q, and neither
      of the new expressions kept out of its group by a hash in use or by the other one. */
  ghost predicate Ready(m: Memo, g: nat, i: nat, p: Plan, q: Plan, hash: Hasher) {
    && Valid(m, hash) && TargetOk(m, 0) && Joins(m, g, i, p, q)
    && Welcome(m, Swapped(m.groups[g][i]), g + 1, hash) && Welcome(m, Hashed(m.groups[g][i]), g + 1, hash)
    && hash(Swapped(m.groups[g][i])) != hash(Hashed(m.groups[g][i]))
  }

  lemma BothEnabled(m: Memo, g: nat, i: nat, hash: Hasher)
    requires Valid(m, hash) && TargetOk(m, 0) && At(m, g, i)
    requires m.groups[g][i].op == LOGICAL_JOIN && |m.groups[g][i].children| == 2
    ensures Enabled(m, Apply(JoinCommutativity, g, i))
    ensures Enabled(Step(m, Apply(JoinCommutativity, g, i), hash), Apply(ToHashJoin, g, i))
  {
    StepKeepsPlace(m, Apply(JoinCommutativity, g, i), hash, g, i);
  }

  /** The memo after the commutativity rule and then the implementation rule. */
  ghost function AfterBoth(m: Memo, g: nat, i: nat, hash: Hasher): Memo
    requires Valid(m, hash) && TargetOk(m, 0) && At(m, g, i)
    requires m.groups[g][i].op == LOGICAL_JOIN && |m.groups[g][i].children| == 2
  {
    BothEnabled(m, g, i, hash);
    Step(Step(m, Apply(JoinCommutativity, g, i), hash), Apply(ToHashJoin, g, i), hash)
  }

  lemma StepKeepsPlan(m: Memo, ev: Event, hash: Hasher, g: nat, p: Plan)
    requires Valid(m, hash) && Enabled(m, ev) && PlanOf(m, g, p)
    ensures PlanOf(Step(m, ev, hash), g, p)
  {
    StepGrows(m, ev, hash);
    PlanStays(m, Step(m, ev, hash), g, p);
  }

  /** After both rules the group offers the join the other way round ... */
  lemma MirrorOffered(m: Memo, g: nat, i: nat, p: Plan, q: Plan, hash: Hasher)
    requires Ready(m, g, i, p, q, hash)
    ensures PlanOf(AfterBoth(m, g, i, hash), g + 1, Plan(LOGICAL_JOIN, [q, p]))
  {
    CommutativityFires(m, g, i, p, q, hash);
    FirstStep(m, g, i, hash);
    BothEnabled(m, g, i, hash);
    StepKeepsPlan(Step(m, Apply(JoinCommutativity, g, i), hash), Apply(ToHashJoin, g, i), hash, g + 1,
                  Plan(LOGICAL_JOIN, [q, p]));
  }

  /** ... and the hash join. */
  lemma HashJoinOffered(m: Memo, g: nat, i: nat, p: Plan, q: Plan, hash: Hasher)
    requires Ready(m, g, i, p, q, hash)
    ensures PlanOf(AfterBoth(m, g, i, hash), g + 1, Plan(PHYSICAL_HASH_JOIN, [p, q]))
  {
    FirstStep(m, g, i, hash);
    var m1 := Step(m, Apply(JoinCommutativity, g, i), hash);
    JoinsStays(m, m1, g, i, p, q);
    HashJoinFires(m1, g, i, p, q, hash);
  }

  // ---------------------------------------------------------------- the computed hash

  /** The codes of the operators, in the order of the enumeration, are the hashes of
      expressions without children. */
  lemma ChildlessHashes()
    ensures Hash(Expr(LOGICAL_GET, [])).bits == 0 && Hash(Expr(LOGICAL_FILTER, [])).bits == 1
    ensures Hash(Expr(LOGICAL_JOIN, [])).bits == 2 && Hash(Expr(LOGICAL_AGGREGATION, [])).bits == 3
    ensures Hash(Expr(PHYSICAL_SEQ_SCAN, [])).bits == 4 && Hash(Expr(PHYSICAL_INDEX_SCAN, [])).bits == 5
    ensures Hash(Expr(PHYSICAL_HASH_JOIN, [])).bits == 6 && Hash(Expr(PHYSICAL_NESTED_LOOP_JOIN, [])).bits == 7
  {}

  lemma SingleHash(op: Operator, c: GroupId)
    ensures Hash(Expr(op, [c])) == Word(Mix(OpCode(op), c as bv64))
  {
    var children := [c];
    assert Fold(OpCode(op), MixChild, children, 1) == Mix(Fold(OpCode(op), MixChild, children, 0), c as bv64);
  }

  lemma MixApart(x: bv64, y: bv64, c: bv64)
    requires x < 8 && y < 8 && x != y
    ensures Mix(x, c) != Mix(y, c)
  {}

  /** Over the same child different operators never share a hash. */
  lemma OperatorsApart(op: Operator, op': Operator, c: GroupId)
    requires op != op'
    ensures Hash(Expr(op, [c])) != Hash(Expr(op', [c]))
  {
    SingleHash(op, c);
    SingleHash(op', c);
    MixApart(OpCode(op), OpCode(op'), c as bv64);
  }

  lemma PairHash(op: Operator, a: GroupId, b: GroupId)
    ensures Hash(Expr(op, [a, b])) == Word(Mix(Mix(OpCode(op), a as bv64), b as bv64))
  {
    var children := [a, b];
    assert Fold(OpCode(op), MixChild, children, 1) == Mix(Fold(OpCode(op), MixChild, children, 0), a as bv64);
    assert Fold(OpCode(op), MixChild, children, 2) == Mix(Fold(OpCode(op), MixChild, children, 1), b as bv64);
  }

  // ---------------------------------------------------------------- a run with the computed hash

  /** A scan, a filter over it, their join, the join the other way round, and the hash join. */
  function Five(): seq<Expr> {
    [Expr(LOGICAL_GET, []), Expr(LOGICAL_FILTER, [1]), Expr(LOGICAL_JOIN, [1, 2]), Expr(LOGICAL_JOIN, [2, 1]),
     Expr(PHYSICAL_HASH_JOIN, [1, 2])]
  }

  ghost predicate FiveApart(hash: Hasher) {
    forall i, j :: 0 <= i < j < 5 ==> hash(Five()[i]) != hash(Five()[j])
  }

  lemma FiveWords()
    ensures Mix(1, 1) == 0x9e3779fb
    ensures Mix(Mix(2, 1), 2) == 0x28cd949c71 && Mix(Mix(2, 2), 1) == 0x28cd949cb1
    ensures Mix(Mix(6, 1), 2) == 0x28cd935cf7
  {}

  ghost predicate FiveValues(hash: Hasher) {
    && hash(Five()[0]).bits == 0 && hash(Five()[1]).bits == 0x9e3779fb
    && hash(Five()[2]).bits == 0x28cd949c71 && hash(Five()[3]).bits == 0x28cd949cb1
    && hash(Five()[4]).bits == 0x28cd935cf7
  }

  lemma HashFiveValues()
    ensures FiveValues(Hash)
  {
    ChildlessHashes();
    FilterValue();
    JoinValues();
  }

  lemma FilterValue()
    ensures Hash(Expr(LOGICAL_FILTER, [1])).bits == 0x9e3779fb
  {
    SingleHash(LOGICAL_FILTER, 1);
    FiveWords();
  }

  lemma JoinValues()
    ensures Hash(Expr(LOGICAL_JOIN, [1, 2])).bits == 0x28cd949c71
    ensures Hash(Expr(LOGICAL_JOIN, [2, 1])).bits == 0x28cd949cb1
    ensures Hash(Expr(PHYSICAL_HASH_JOIN, [1, 2])).bits == 0x28cd935cf7
  {
    PairHash(LOGICAL_JOIN, 1, 2);
    PairHash(LOGICAL_JOIN, 2, 1);
    PairHash(PHYSICAL_HASH_JOIN, 1, 2);
    FiveWords();
  }

  lemma ValuesApart(hash: Hasher)
    requires FiveValues(hash)
    ensures FiveApart(hash)
  {}

  /** A memo with one more group, for an expression whose hash is new. */
  function Added(m: Memo, e: Expr, hash: Hasher): Memo {
    Memo(m.groups + [[e]], m.index[hash(e) := Stored(e, |m.groups| + 1)])
  }

  lemma AddsGroup(m: Memo, e: Expr, hash: Hasher)
    requires Valid(m, hash) && Enabled(m, Add(e)) && hash(e) !in m.index
    ensures Step(m, Add(e), hash) == Added(m, e, hash) && Valid(Added(m, e, hash), hash)
  {
    InsertValid(m, e, 0, hash);
    var gs: seq<seq<Expr>> := m.groups + [[]];
    assert gs[|m.groups|] + [e] == [e];
    assert gs[|m.groups| := [e]] == m.groups + [[e]];
  }

  lemma RunStarts(m: Memo, e: Event, es: seq<Event>, hash: Hasher)
    requires Enabled(m, e) && IsRun(Step(m, e, hash), es, hash)
    ensures IsRun(m, [e] + es, hash) && Run(m, [e] + es, hash) == Run(Step(m, e, hash), es, hash)
  {
    assert ([e] + es)[1..] == es;
  }

  /** Three expressions with three hashes, each over groups before it, make three groups. */
  lemma ThreeAdds(a: Expr, b: Expr, c: Expr, hash: Hasher)
    requires hash(a) != hash(b) && hash(a) != hash(c) && hash(b) != hash(c)
    requires Below(a, 1) && Below(b, 2) && Below(c, 3)
    ensures var events := [Add(a)] + ([Add(b)] + ([Add(c)] + []));
            && IsRun(EMPTY, events, hash)
            && Run(EMPTY, events, hash) == Added(Added(Added(EMPTY, a, hash), b, hash), c, hash)
            && Valid(Run(EMPTY, events, hash), hash)
  {
    AddsGroup(EMPTY, a, hash);
    TwoAdds(Added(EMPTY, a, hash), b, c, hash);
    AddThen(EMPTY, a, [Add(b)] + ([Add(c)] + []), hash);
  }

  lemma TwoAdds(m: Memo, b: Expr, c: Expr, hash: Hasher)
    requires Valid(m, hash) && |m.groups| == 1 && Below(b, 2) && Below(c, 3)
    requires hash(b) !in m.index && hash(c) !in m.index && hash(b) != hash(c)
    ensures var events := [Add(b)] + ([Add(c)] + []);
            && IsRun(m, events, hash) && Run(m, events, hash) == Added(Added(m, b, hash), c, hash)
            && Valid(Run(m, events, hash), hash)
  {
    var m2 := Added(m, b, hash);
    AddsGroup(m, b, hash);
    assert IsRun(Added(m2, c, hash), [], hash);
    AddThen(m2, c, [], hash);
    AddThen(m, b, [Add(c)] + [], hash);
  }

  lemma AddThen(m: Memo, e: Expr, es: seq<Event>, hash: Hasher)
    requires Valid(m, hash) && Enabled(m, Add(e)) && hash(e) !in m.index && IsRun(Added(m, e, hash), es, hash)
    ensures IsRun(m, [Add(e)] + es, hash) && Run(m, [Add(e)] + es, hash) == Run(Added(m, e, hash), es, hash)
    ensures Valid(Added(m, e, hash), hash)
  {
    AddsGroup(m, e, hash);
    RunStarts(m, Add(e), es, hash);
  }

  function JoinMemo(hash: Hasher): Memo {
    Added(Added(Added(EMPTY, Five()[0], hash), Five()[1], hash), Five()[2], hash)
  }

  function JoinEvents(): seq<Event> { [Add(Five()[0])] + ([Add(Five()[1])] + ([Add(Five()[2])] + [])) }

  function Scan(): Plan { Plan(LOGICAL_GET, []) }

  function Filtered(): Plan { Plan(LOGICAL_FILTER, [Scan()]) }

  lemma JoinMemoPlans(hash: Hasher)
    ensures Joins(JoinMemo(hash), 2, 0, Scan(), Filtered())
  {
    var m := JoinMemo(hash);
    assert Five()[0] in m.groups[0] && PlanOf(m, 1, Scan());
    assert Five()[1] in m.groups[1];
    assert PlanOf(m, 2, Filtered());
  }

  lemma BothWelcome(hash: Hasher)
    requires FiveApart(hash)
    ensures Welcome(JoinMemo(hash), Expr(LOGICAL_JOIN, [2, 1]), 3, hash)
    ensures Welcome(JoinMemo(hash), Expr(PHYSICAL_HASH_JOIN, [1, 2]), 3, hash)
    ensures hash(Expr(LOGICAL_JOIN, [2, 1])) != hash(Expr(PHYSICAL_HASH_JOIN, [1, 2]))
  {
    assert hash(Five()[3]) != hash(Five()[4]);
  }

  lemma JoinIsReady(hash: Hasher)
    requires FiveApart(hash)
    ensures IsRun(EMPTY, JoinEvents(), hash) && Run(EMPTY, JoinEvents(), hash) == JoinMemo(hash)
    ensures Ready(JoinMemo(hash), 2, 0, Scan(), Filtered(), hash)
  {
    ThreeAdds(Five()[0], Five()[1], Five()[2], hash);
    JoinMemoPlans(hash);
    BothWelcome(hash);
  }

  /** With any hash that tells the five expressions apart, a run that adds scan, filter and
      join leads to a memo on which both rules fire. */
  lemma RunOffersPlans(hash: Hasher)
    requires FiveApart(hash)
    ensures IsRun(EMPTY, JoinEvents(), hash)
    ensures var m := Run(EMPTY, JoinEvents(), hash);
            && Ready(m, 2, 0, Scan(), Filtered(), hash)
            && PlanOf(AfterBoth(m, 2, 0, hash), 3, Plan(LOGICAL_JOIN, [Filtered(), Scan()]))
            && PlanOf(AfterBoth(m, 2, 0, hash), 3, Plan(PHYSICAL_HASH_JOIN, [Scan(), Filtered()]))
  {
    JoinIsReady(hash);
    MirrorOffered(JoinMemo(hash), 2, 0, Scan(), Filtered(), hash);
    HashJoinOffered(JoinMemo(hash), 2, 0, Scan(), Filtered(), hash);
  }

  /** The computed hash is such a hash. */
  lemma ComputedHashOffersPlans()
    ensures FiveApart(Hash) && IsRun(EMPTY, JoinEvents(), Hash)
    ensures var m := Run(EMPTY, JoinEvents(), Hash);
            && Ready(m, 2, 0, Scan(), Filtered(), Hash)
            && PlanOf(AfterBoth(m, 2, 0, Hash), 3, Plan(LOGICAL_JOIN, [Filtered(), Scan()]))
            && PlanOf(AfterBoth(m, 2, 0, Hash), 3, Plan(PHYSICAL_HASH_JOIN, [Scan(), Filtered()]))
  {
    HashFiveValues();
    ValuesApart(Hash);
    RunOffersPlans(Hash);
  }

  /** Added on its own, e gets a group of its own, and commuting the join in group g does not
      bring it over. */
  ghost predicate StaysApart(m0: Memo, e: Expr, g: nat, hash: Hasher) {
    && Enabled(m0, Add(e))
    && var m := Step(m0, Add(e), hash);
       && |m.groups| == |m0.groups| + 1 && e in m.groups[|m0.groups|]
       && Enabled(m, Apply(JoinCommutativity, g, 0))
       && Step(m, Apply(JoinCommutativity, g, 0), hash) == m && g < |m.groups| && e !in m.groups[g]
  }

  lemma NewGroupStays(m0: Memo, e: Expr, g: nat, hash: Hasher)
    requires Valid(m0, hash) && Enabled(m0, Add(e)) && hash(e) !in m0.index && |m0.groups| + 2 < 0x1_0000_0000
    requires At(m0, g, 0) && m0.groups[g][0].op == LOGICAL_JOIN && |m0.groups[g][0].children| == 2
    requires e == Swapped(m0.groups[g][0])
    ensures StaysApart(m0, e, g, hash)
  {
    AddsGroup(m0, e, hash);
    var m := Added(m0, e, hash);
    AddedPlaces(m0, e, hash, g);
    ElsewhereStays(m, e, g, hash);
  }

  lemma AddedPlaces(m0: Memo, e: Expr, hash: Hasher, g: nat)
    requires At(m0, g, 0)
    ensures var m := Added(m0, e, hash);
            && |m.groups| == |m0.groups| + 1 && m.groups[g] == m0.groups[g] && m.groups[|m0.groups|] == [e]
            && hash(e) in m.index && m.index[hash(e)] == Stored(e, |m0.groups| + 1)
  {}

  /** Stored in another group, the mirrored join does not come over. */
  lemma ElsewhereStays(m: Memo, e: Expr, g: nat, hash: Hasher)
    requires Valid(m, hash) && TargetOk(m, 0) && At(m, g, 0)
    requires m.groups[g][0].op == LOGICAL_JOIN && |m.groups[g][0].children| == 2 && e == Swapped(m.groups[g][0])
    requires hash(e) in m.index && m.index[hash(e)].expr == e && m.index[hash(e)].group != g + 1
    ensures Enabled(m, Apply(JoinCommutativity, g, 0))
    ensures Step(m, Apply(JoinCommutativity, g, 0), hash) == m && e !in m.groups[g]
  {
    ApplyExact(m, JoinCommutativity, g, 0, hash);
  }

  /** Groups of the same meaning are not merged: join(1, 2) and join(2, 1), both added on their
      own after the scan and the filter, sit in two groups for good. */
  lemma JoinsStayApart(hash: Hasher)
    requires FiveApart(hash)
    ensures IsRun(EMPTY, JoinEvents(), hash)
    ensures StaysApart(Run(EMPTY, JoinEvents(), hash), Expr(LOGICAL_JOIN, [2, 1]), 2, hash)
  {
    JoinIsReady(hash);
    MirrorIsNew(hash);
    NewGroupStays(JoinMemo(hash), Expr(LOGICAL_JOIN, [2, 1]), 2, hash);
  }

  lemma MirrorIsNew(hash: Hasher)
    requires FiveApart(hash)
    ensures hash(Expr(LOGICAL_JOIN, [2, 1])) !in JoinMemo(hash).index && |JoinMemo(hash).groups| == 3
    ensures At(JoinMemo(hash), 2, 0) && JoinMemo(hash).groups[2][0] == Expr(LOGICAL_JOIN, [1, 2])
    ensures Swapped(Expr(LOGICAL_JOIN, [1, 2])) == Expr(LOGICAL_JOIN, [2, 1])
  {
    assert Five()[3] == Expr(LOGICAL_JOIN, [2, 1]);
  }
}
