/** Arrays of for initialisers: lowering keeps them to the end of the enclosing block, and the prepass forgets them
    after the loop. */
module VlaLoops {
  import opened Options
  import opened VlaCode
  import opened VlaProgram
  import opened VlaMeaning
  import opened VlaScopes
  import opened VlaInvariant

  function Names(s: Stmt): set<string> {
    Prepass(s, 0).Keys
  }

  lemma NamesOf(s: Stmt, scope: Scope, depth: nat)
    ensures Names(s) == Labels(s, scope).Keys == Prepass(s, depth).Keys
  {
    PrepassKeys(s, scope, 0);
    PrepassKeys(s, scope, depth);
  }

  /** Arrays that a statement leaves in the list and that the prepass does not count behind it. */
  function Uncounted(s: Stmt): (n: nat)
    ensures |LeftBy(s)| == Counted(s) + n
  {
    |LeftBy(s)| - Counted(s)
  }

  function UncountedBy(ss: seq<Stmt>, i: nat): nat
    requires i <= |ss|
  {
    if i == 0 then 0 else UncountedBy(ss, i - 1) + Uncounted(ss[i - 1])
  }

  /** The arrays of initialisers of loops that stand before a label in the blocks around it. */
  function Missed(s: Stmt, name: string): nat {
    match s
    case Compound(ss) => MissedBy(ss, |ss|, name)
    case If(_, yes, no) => if no.Some? && name in Names(no.value) then Missed(no.value, name) else Missed(yes, name)
    case Do(body, _) => Missed(body, name)
    case While(_, body) => Missed(body, name)
    case For(init, _, _, body) =>
      if name in Names(body) then Uncounted(init) + Missed(body, name) else Missed(init, name)
    case Switch(_, body) => Missed(body, name)
    case Case(_, inner) => Missed(inner, name)
    case Default(inner) => Missed(inner, name)
    case Label(_, inner) => if name in Names(inner) then Missed(inner, name) else 0
    case _ => 0
  }

  function MissedBy(ss: seq<Stmt>, i: nat, name: string): nat
    requires i <= |ss|
    decreases ss, i
  {
    if i == 0 then 0
    else if name in Names(ss[i - 1]) then UncountedBy(ss, i - 1) + Missed(ss[i - 1], name)
    else MissedBy(ss, i - 1, name)
  }

  /** The list at a label is longer than the recorded depth by exactly those arrays. */
  lemma {:induction false} LabelDepth(s: Stmt, scope: Scope, depth: nat, name: string)
    requires name in Names(s)
    ensures name in Labels(s, scope) && name in Prepass(s, depth)
    ensures |Labels(s, scope)[name]| - |scope| == Prepass(s, depth)[name] - depth + Missed(s, name)
    decreases s, 0
  {
    hide LeftBy, After, PrepassBy, LabelsBy, MissedBy;
    NamesOf(s, scope, depth);
    match s
    case Compound(ss) => BlockDepth(ss, |ss|, scope, depth, name, s);
    case If(_, yes, no) =>
      NamesOf(yes, scope, depth);
      if no.Some? {
        NamesOf(no.value, scope, depth);
      }
      if no.Some? && name in Names(no.value) {
        LabelDepth(no.value, scope, depth, name);
      } else {
        LabelDepth(yes, scope, depth, name);
      }
    case Do(body, _) => LabelDepth(body, scope, depth, name);
    case While(_, body) => LabelDepth(body, scope, depth, name);
    case For(init, _, _, body) =>
      NamesOf(init, scope, depth);
      NamesOf(body, After(init, scope), depth + Counted(init));
      if name in Names(body) {
        AfterLeft(init, scope);
        LabelDepth(body, After(init, scope), depth + Counted(init), name);
      } else {
        LabelDepth(init, scope, depth, name);
      }
    case Switch(_, body) => LabelDepth(body, scope, depth, name);
    case Case(_, inner) => LabelDepth(inner, scope, depth, name);
    case Default(inner) => LabelDepth(inner, scope, depth, name);
    case Label(_, inner) =>
      NamesOf(inner, scope, depth);
      if name in Names(inner) {
        LabelDepth(inner, scope, depth, name);
      }
    case _ =>
  }

  lemma {:induction false} BlockDepth(ss: seq<Stmt>, i: nat, scope: Scope, depth: nat, name: string, whole: Stmt)
    requires whole == Compound(ss) && i <= |ss| && name in LabelsBy(ss, i, scope) && name in PrepassBy(ss, i, depth)
    ensures |LabelsBy(ss, i, scope)[name]| - |scope| == PrepassBy(ss, i, depth)[name] - depth + MissedBy(ss, i, name)
    decreases whole, 0, i
  {
    hide Labels, Prepass, Missed, Names, AfterAll, CountedBy;
    var last, wide, deep := ss[i - 1], AfterAll(ss, i - 1, scope), depth + CountedBy(ss, i - 1);
    NamesOf(last, wide, deep);
    if name in Names(last) {
      BlockLength(ss, i - 1, scope);
      LabelDepth(last, wide, deep, name);
    } else {
      BlockDepth(ss, i - 1, scope, depth, name, whole);
    }
  }

  lemma {:induction false} BlockLength(ss: seq<Stmt>, i: nat, scope: Scope)
    requires i <= |ss|
    ensures |AfterAll(ss, i, scope)| == |scope| + CountedBy(ss, i) + UncountedBy(ss, i)
  {
    hide After, LeftBy, Counted;
    if i > 0 {
      BlockLength(ss, i - 1, scope);
      AfterLeft(ss[i - 1], AfterAll(ss, i - 1, scope));
    }
  }

  /** The depth of a label is known exactly when no loop before it, in the blocks around it, has an array in its
      initialiser. */
  lemma KnownDepths(body: seq<Stmt>, name: string)
    requires name in LabelsBy(body, |body|, [])
    ensures name in Agreeing(body) <==> MissedBy(body, |body|, name) == 0
  {
    hide LabelsBy, PrepassBy, MissedBy;
    RecordedStart(body);
    BlockDepth(body, |body|, [], 0, name, Compound(body));
  }

  /** Where a run can be, releasing down to a depth and jumping leaves what the block expects exactly when that many
      arrays are its scope. */
  lemma JumpBalances(s: Lowering, scope: Scope, depth: nat, block: nat)
    requires Inv(s, scope) && Clean(scope, s.done) && depth <= |s.stack| && block < |s.scopes|
    ensures s.stack == scope
    ensures Expected(s, scope, depth, Jump(block)) <==> s.scopes[block] == scope[..depth]
  {
    hide BlocksKept, Aligned, LabelsKept, DepthsKept, TargetsKept, SwitchesKept, Passed;
    KeptClean(scope, s.done);
  }

  /** So a goto balances exactly when the recorded depth is the number of arrays in scope at its label. */
  lemma GotoBalances(s: Lowering, scope: Scope, name: string, block: nat)
    requires Inv(s, scope) && Clean(scope, s.done) && name in s.table && s.table[name] <= scope
    requires block < |s.scopes| && s.scopes[block] == s.table[name] && name in s.depths && s.depths[name] <= |s.stack|
    ensures Expected(s, scope, s.depths[name], Jump(block)) <==> s.depths[name] == |s.table[name]|
  {
    hide Inv, Expected, Clean;
    JumpBalances(s, scope, s.depths[name], block);
  }

  /** And going on from a part of a statement to a block of that statement does exactly when the part left nothing. */
  lemma PartBalances(s: Lowering, part: Stmt, scope: Scope, block: nat)
    requires Inv(s, After(part, scope)) && Clean(After(part, scope), s.done) && block < |s.scopes| && s.scopes[block] == scope
    ensures Expected(s, After(part, scope), |s.stack|, Jump(block)) <==> LeftBy(part) == []
  {
    hide Inv, Expected, Clean, After, LeftBy;
    JumpBalances(s, After(part, scope), |s.stack|, block);
    AfterLeft(part, scope);
  }

  // ---------------------------------------------------------------- { for (int a[n]; c; ) { goto out; } out: ; }

  function Inside(): seq<Stmt> {
    [Goto("out")]
  }

  function Loop(): Stmt {
    For(Declare([0]), Some(0), None, Compound(Inside()))
  }

  function Out(): Stmt {
    Label("out", Expr(1))
  }

  function Block(): seq<Stmt> {
    [Loop(), Out()]
  }

  function LoopThenLabel(): seq<Stmt> {
    [Compound(Block())]
  }

  lemma BlockScopes()
    ensures AfterAll(Block(), 0, []) == [] && AfterAll(Block(), 1, []) == [0]
  {
    assert AfterAll(Block(), 0, []) == [];
    assert After(Block()[0], []) == After(Declare([0]), []) == [0];
  }

  lemma TableThere()
    ensures LabelsBy(LoopThenLabel(), 1, []) == map["out" := [0]]
  {
    BlockScopes();
    assert LabelsBy(Inside(), 0, [0]) == map[] && Labels(Inside()[0], AfterAll(Inside(), 0, [0])) == map[];
    assert LabelsBy(Inside(), 1, [0]) == map[];
    assert After(Declare([0]), []) == [0] && Labels(Loop(), []) == map[];
    assert LabelsBy(Block(), 0, []) == map[] && Block()[0] == Loop() && LabelsBy(Block(), 1, []) == map[];
    assert Labels(Out(), [0]) == map["out" := [0]] && Block()[1] == Out();
    assert LabelsBy(Block(), 2, []) == map["out" := [0]];
    var body := LoopThenLabel();
    assert LabelsBy(body, 0, []) == map[] && AfterAll(body, 0, []) == [] && body[0] == Compound(Block());
  }

  lemma PrepassThere()
    ensures PrepassBy(LoopThenLabel(), 1, 0) == map["out" := 0]
  {
    assert PrepassBy(Inside(), 0, 1) == map[] && Prepass(Inside()[0], 1 + CountedBy(Inside(), 0)) == map[];
    assert PrepassBy(Inside(), 1, 1) == map[];
    assert Counted(Declare([0])) == 1 && Prepass(Loop(), 0) == map[];
    assert CountedBy(Block(), 0) == 0 && Block()[0] == Loop() && CountedBy(Block(), 1) == 0;
    assert PrepassBy(Block(), 0, 0) == map[] && PrepassBy(Block(), 1, 0) == map[];
    assert Prepass(Out(), 0) == map["out" := 0] && Block()[1] == Out();
    assert PrepassBy(Block(), 2, 0) == map["out" := 0];
    var body := LoopThenLabel();
    assert PrepassBy(body, 0, 0) == map[] && CountedBy(body, 0) == 0 && body[0] == Compound(Block());
  }

  lemma DistinctThere()
    ensures Distinct(Compound(LoopThenLabel()))
  {
    assert Declared(Inside()[0]) == {} && Distinct(Compound(Inside())) && Declared(Compound(Inside())) == {};
    assert Declared(Out()) == {} && Distinct(Out()) && Distinct(Loop());
    assert Block()[0] == Loop() && Block()[1] == Out();
    assert DeclaredBy(Block(), 0) == {};
    assert Distinct(Compound(Block()));
    assert DeclaredBy(LoopThenLabel(), 0) == {};
  }

  lemma PermittedThere(table: map<string, Scope>)
    requires table == map["out" := [0]]
    ensures Permitted(Compound(LoopThenLabel()), [], None, table)
  {
    BlockScopes();
    assert AfterAll(Inside(), 0, [0]) == [0] && Permitted(Inside()[0], [0], None, table);
    assert After(Declare([0]), []) == [0] && Permitted(Loop(), [], None, table);
    assert Permitted(Out(), [0], None, table);
    assert Block()[0] == Loop() && Block()[1] == Out() && Permitted(Compound(Block()), [], None, table);
    assert AfterAll(LoopThenLabel(), 0, []) == [] && LoopThenLabel()[0] == Compound(Block());
  }

  lemma AimsThere(table: map<string, Scope>, known: set<string>)
    requires "out" in table && "out" !in known
    ensures !Aims(Compound(LoopThenLabel()), table, known)
  {
    assert Inside()[0] == Goto("out") && !Aims(Compound(Inside()), table, known);
    assert Block()[0] == Loop() && !Aims(Compound(Block()), table, known);
    assert LoopThenLabel()[0] == Compound(Block());
  }

  lemma LoopPoints(k: Kont)
    ensures LabelPoints(Loop(), k) == map[]
  {
    var inner := Back(Loop(), k);
    assert Inside()[0] == Goto("out");
    assert LabelPointsBy(Inside(), 0, inner, Compound(Inside())) == map[];
    assert LabelPoints(Goto("out"), Seq(Inside(), 1, inner)) == map[];
    assert LabelPointsBy(Inside(), 1, inner, Compound(Inside())) == map[];
    assert LabelPoints(Declare([0]), Begin(Loop(), k)) == map[];
  }

  lemma BlockPoints(k: Kont)
    ensures LabelPoints(Compound(Block()), k) == map["out" := Enter(Expr(1), Seq(Block(), 2, k))]
  {
    var block := Compound(Block());
    LoopPoints(Seq(Block(), 1, k));
    assert LabelPoints(Out(), Seq(Block(), 2, k)) == map["out" := Enter(Expr(1), Seq(Block(), 2, k))];
    hide Loop, Out;
    assert Block()[0] == Loop() && Block()[1] == Out();
    assert LabelPointsBy(Block(), 0, k, block) == map[];
    assert LabelPointsBy(Block(), 1, k, block) == map[];
  }

  lemma BodyPoints()
    ensures Spots(LoopThenLabel()) == map["out" := Enter(Expr(1), Seq(Block(), 2, Seq(LoopThenLabel(), 1, Stop)))]
  {
    var body := LoopThenLabel();
    BlockPoints(Seq(body, 1, Stop));
    hide Block;
    assert body[0] == Compound(Block());
    assert LabelPointsBy(body, 0, Stop, Compound(body)) == map[];
  }

  lemma BlockPlaces(k: Kont, spots: map<string, Point>)
    requires spots == map["out" := Enter(Expr(1), Seq(Block(), 2, k))]
    ensures OnePlace(Compound(Block()), k, spots, None)
  {
    var loop := Seq(Block(), 1, k);
    assert Inside()[0] == Goto("out");
    assert OnePlace(Compound(Inside()), Back(Loop(), loop), spots, None);
    assert OnePlace(Loop(), loop, spots, None);
    assert OnePlace(Out(), Seq(Block(), 2, k), spots, None);
    assert Block()[0] == Loop() && Block()[1] == Out();
  }

  lemma PlacesThere()
    ensures OnePlace(Compound(LoopThenLabel()), Stop, Spots(LoopThenLabel()), None)
  {
    hide Spots, Block;
    var body := LoopThenLabel();
    BodyPoints();
    BlockPlaces(Seq(body, 1, Stop), Spots(body));
    assert body[0] == Compound(Block());
  }

  /** It obeys the constraints. Its goto releases the loop's array, for the recorded depth is 0, and the block at the
      label still lists the array. */
  lemma LoopArrayMissed()
    ensures ObeysC(LoopThenLabel()) && !DepthsAgree(LoopThenLabel())
    ensures PrepassBy(LoopThenLabel(), 1, 0) == map["out" := 0] && LabelsBy(LoopThenLabel(), 1, []) == map["out" := [0]]
  {
    TableThere();
    PrepassThere();
    DistinctThere();
    PlacesThere();
    hide Permitted, Aims, Distinct, LabelsBy, PrepassBy, OnePlace, Spots;
    var body := LoopThenLabel();
    assert |body| == 1;
    PermittedThere(LabelsBy(body, |body|, []));
    AimsThere(LabelsBy(body, |body|, []), Agreeing(body));
  }
}
