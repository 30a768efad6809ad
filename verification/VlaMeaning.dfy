/** What statements do, step by step: which statement runs next, where a loop goes on and where it is left, where a label
    and a case value stand. */
module VlaMeaning {
  import opened Options
  import opened VlaCode
  import opened VlaProgram

  /** What is left to do when a statement ends: the rest of a block from number `next` on, the code behind a branch or a
      switch, or the next turn of a loop. */
  datatype Kont =
    | Stop
    | Seq(stmts: seq<Stmt>, next: nat, outer: Kont)
    | Join(outer: Kont)
    | Begin(loop: Stmt, outer: Kont)
    | Back(loop: Stmt, outer: Kont)
    | Leave(outer: Kont)

  /** Where a run may be: in front of a statement, behind one, at the place where a loop continues (the step of a for
      statement, the condition of the others), or at the condition of a for statement. */
  datatype Point =
    | Enter(stmt: Stmt, after: Kont)
    | Resume(after: Kont)
    | Again(loop: Stmt, after: Kont)
    | Turn(loop: Stmt, after: Kont)

  datatype Event = Evaluated(expr: ExprId, value: int) | Allocated(vla: Vla)

  /** Behind the innermost loop or switch. */
  function BreakTo(k: Kont): Option<Point> {
    match k
    case Stop => None
    case Seq(_, _, o) => BreakTo(o)
    case Join(o) => BreakTo(o)
    case Begin(_, o) => BreakTo(o)
    case Back(_, o) => Some(Resume(o))
    case Leave(o) => Some(Resume(o))
  }

  /** Where the innermost loop continues. */
  function ContinueTo(k: Kont): Option<Point> {
    match k
    case Stop => None
    case Seq(_, _, o) => ContinueTo(o)
    case Join(o) => ContinueTo(o)
    case Begin(_, o) => ContinueTo(o)
    case Back(loop, o) => Some(Again(loop, o))
    case Leave(o) => ContinueTo(o)
  }

  // ---------------------------------------------------------------- labels and cases

  /** Where each label stands. */
  function LabelPoints(s: Stmt, k: Kont): map<string, Point>
    decreases s, 0
  {
    match s
    case Compound(ss) => LabelPointsBy(ss, |ss|, k, s)
    case If(_, yes, no) => LabelPoints(yes, Join(k)) + if no.Some? then LabelPoints(no.value, Join(k)) else map[]
    case Do(body, _) => LabelPoints(body, Back(s, k))
    case While(_, body) => LabelPoints(body, Back(s, k))
    case For(init, _, _, body) => LabelPoints(init, Begin(s, k)) + LabelPoints(body, Back(s, k))
    case Switch(_, body) => LabelPoints(body, Leave(k))
    case Case(_, inner) => LabelPoints(inner, k)
    case Default(inner) => LabelPoints(inner, k)
    case Label(name, inner) => LabelPoints(inner, k)[name := Enter(inner, k)]
    case _ => map[]
  }

  function LabelPointsBy(ss: seq<Stmt>, i: nat, k: Kont, whole: Stmt): map<string, Point>
    requires whole == Compound(ss) && i <= |ss|
    decreases whole, 0, i
  {
    if i == 0 then map[] else LabelPointsBy(ss, i - 1, k, whole) + LabelPoints(ss[i - 1], Seq(ss, i, k))
  }

  /** Where each case of a switch stands in its body; a nested switch keeps its own. */
  function CasePoints(s: Stmt, k: Kont): map<int, Point>
    decreases s, 0
  {
    match s
    case Compound(ss) => CasePointsBy(ss, |ss|, k, s)
    case If(_, yes, no) => CasePoints(yes, Join(k)) + if no.Some? then CasePoints(no.value, Join(k)) else map[]
    case Do(body, _) => CasePoints(body, Back(s, k))
    case While(_, body) => CasePoints(body, Back(s, k))
    case For(_, _, _, body) => CasePoints(body, Back(s, k))
    case Case(value, inner) => CasePoints(inner, k)[value := Enter(inner, k)]
    case Default(inner) => CasePoints(inner, k)
    case Label(_, inner) => CasePoints(inner, k)
    case _ => map[]
  }

  function CasePointsBy(ss: seq<Stmt>, i: nat, k: Kont, whole: Stmt): map<int, Point>
    requires whole == Compound(ss) && i <= |ss|
    decreases whole, 0, i
  {
    if i == 0 then map[] else CasePointsBy(ss, i - 1, k, whole) + CasePoints(ss[i - 1], Seq(ss, i, k))
  }

  function DefaultPoint(s: Stmt, k: Kont): Option<Point>
    decreases s, 0
  {
    match s
    case Compound(ss) => DefaultPointBy(ss, |ss|, k, s)
    case If(_, yes, no) =>
      Either(DefaultPoint(yes, Join(k)), if no.Some? then DefaultPoint(no.value, Join(k)) else None)
    case Do(body, _) => DefaultPoint(body, Back(s, k))
    case While(_, body) => DefaultPoint(body, Back(s, k))
    case For(_, _, _, body) => DefaultPoint(body, Back(s, k))
    case Case(_, inner) => DefaultPoint(inner, k)
    case Default(inner) => Some(Enter(inner, k))
    case Label(_, inner) => DefaultPoint(inner, k)
    case _ => None
  }

  function DefaultPointBy(ss: seq<Stmt>, i: nat, k: Kont, whole: Stmt): Option<Point>
    requires whole == Compound(ss) && i <= |ss|
    decreases whole, 0, i
  {
    if i == 0 then None else Either(DefaultPointBy(ss, i - 1, k, whole), DefaultPoint(ss[i - 1], Seq(ss, i, k)))
  }

  function Either(a: Option<Point>, b: Option<Point>): Option<Point> {
    if a.Some? then a else b
  }

  /** The cases and the default of the enclosing switch. */
  datatype Picks = Picks(cases: map<int, Point>, default: Option<Point>)

  function PicksOf(body: Stmt, k: Kont): Picks {
    Picks(CasePoints(body, k), DefaultPoint(body, k))
  }

  /** Sections 6.8.1 and 6.8.4.2 of C99: a label, a case value and a default stand in one place only, so each is where
      the tables have it. */
  predicate OnePlace(s: Stmt, k: Kont, spots: map<string, Point>, picks: Option<Picks>)
    decreases s
  {
    match s
    case Compound(ss) => forall i :: 0 <= i < |ss| ==> OnePlace(ss[i], Seq(ss, i + 1, k), spots, picks)
    case If(_, yes, no) =>
      OnePlace(yes, Join(k), spots, picks) && (no.Some? ==> OnePlace(no.value, Join(k), spots, picks))
    case Do(body, _) => OnePlace(body, Back(s, k), spots, picks)
    case While(_, body) => OnePlace(body, Back(s, k), spots, picks)
    case For(init, _, _, body) => OnePlace(init, Begin(s, k), spots, picks) && OnePlace(body, Back(s, k), spots, picks)
    case Switch(_, body) => OnePlace(body, Leave(k), spots, Some(PicksOf(body, Leave(k))))
    case Case(value, inner) =>
      && OnePlace(inner, k, spots, picks)
      && (picks.Some? && value in picks.value.cases ==> picks.value.cases[value] == Enter(inner, k))
    case Default(inner) =>
      && OnePlace(inner, k, spots, picks)
      && (picks.Some? && picks.value.default.Some? ==> picks.value.default.value == Enter(inner, k))
    case Label(name, inner) =>
      name in spots && spots[name] == Enter(inner, k) && OnePlace(inner, k, spots, picks)
    case _ => true
  }

  // ---------------------------------------------------------------- steps

  /** The next point, where it does not depend on a value and nothing is seen to happen. */
  function Silent(p: Point, spots: map<string, Point>): Option<Point> {
    match p
    case Enter(s, k) => SilentEnter(s, k, spots)
    case Resume(k) => SilentResume(k)
    case Again(loop, k) => if loop.For? && loop.step.None? then Some(Resume(Begin(loop, k))) else None
    case Turn(loop, k) => if loop.For? && loop.test.None? then Some(Enter(loop.body, Back(loop, k))) else None
  }

  function SilentEnter(s: Stmt, k: Kont, spots: map<string, Point>): Option<Point> {
    match s
    case Compound(ss) => Some(Resume(Seq(ss, 0, k)))
    case Declare(arrays) => if arrays == [] then Some(Resume(k)) else None
    case Do(body, _) => Some(Enter(body, Back(s, k)))
    case While(_, _) => Some(Again(s, k))
    case For(init, _, _, _) => Some(Enter(init, Begin(s, k)))
    case Case(_, inner) => Some(Enter(inner, k))
    case Default(inner) => Some(Enter(inner, k))
    case Label(_, inner) => Some(Enter(inner, k))
    case Goto(name) => if name in spots then Some(spots[name]) else None
    case Break => BreakTo(k)
    case Continue => ContinueTo(k)
    case _ => None
  }

  function SilentResume(k: Kont): Option<Point> {
    match k
    case Stop => None
    case Seq(ss, i, o) => Some(if i < |ss| then Enter(ss[i], Seq(ss, i + 1, o)) else Resume(o))
    case Join(o) => Some(Resume(o))
    case Begin(loop, o) => Some(Turn(loop, o))
    case Back(loop, o) => Some(Again(loop, o))
    case Leave(o) => Some(Resume(o))
  }

  /** The expression that is evaluated at a point. */
  function Asks(p: Point): Option<ExprId> {
    match p
    case Enter(s, _) =>
      (match s
       case Expr(e) => Some(e)
       case ReturnStmt(result) => result
       case If(e, _, _) => Some(e)
       case Switch(e, _) => Some(e)
       case _ => None)
    case Again(loop, _) =>
      (match loop
       case While(e, _) => Some(e)
       case Do(_, e) => Some(e)
       case For(_, _, step, _) => step
       case _ => None)
    case Turn(loop, _) => if loop.For? then loop.test else None
    case _ => None
  }

  /** The value decides where to go. */
  function Decides(p: Point): bool {
    match p
    case Enter(s, _) => s.If?
    case Again(loop, _) => loop.While? || loop.Do?
    case Turn(loop, _) => true
    case _ => false
  }

  /** Where a run goes on when the evaluation gave this value. */
  function Answer(p: Point, value: int): Point
    requires Asks(p).Some?
  {
    match p
    case Enter(s, k) =>
      (match s
       case Expr(_) => Resume(k)
       case ReturnStmt(_) => Enter(ReturnStmt(None), k)
       case If(_, yes, no) =>
         if value != 0 then Enter(yes, Join(k)) else if no.Some? then Enter(no.value, Join(k)) else Resume(Join(k))
       case Switch(_, body) => Selected(PicksOf(body, Leave(k)), Resume(k), value)
       case _ => p)
    case Again(loop, k) =>
      if loop.For? then Resume(Begin(loop, k))
      else if value != 0 && (loop.While? || loop.Do?) then Enter(loop.body, Back(loop, k))
      else Resume(k)
    case Turn(loop, k) => if value != 0 && loop.For? then Enter(loop.body, Back(loop, k)) else Resume(k)
    case _ => p
  }

  /** The case of that value, else the default, else what stands behind the switch. */
  function Selected(picks: Picks, behind: Point, value: int): Point {
    if value in picks.cases then picks.cases[value] else if picks.default.Some? then picks.default.value else behind
  }

  /** The event of an evaluation, with any value, or of one declared array. */
  predicate Happens(p: Point, e: Event, q: Point) {
    match e
    case Evaluated(expr, value) => Asks(p) == Some(expr) && q == Answer(p, value)
    case Allocated(v) =>
      p.Enter? && p.stmt.Declare? && p.stmt.arrays != [] && p.stmt.arrays[0] == v
      && q == Enter(Declare(p.stmt.arrays[1..]), p.after)
  }

  // ---------------------------------------------------------------- runs

  datatype Status = Running | Returned | Fell

  /** Whether a run has returned, or has come to the end of the body. */
  function StatusOf(p: Point): Status {
    if p.Enter? && p.stmt == ReturnStmt(None) then Returned else if p == Resume(Stop) then Fell else Running
  }

  ghost predicate SourceRun(run: seq<Point>, trace: seq<Event>, spots: map<string, Point>)
    decreases |run|
  {
    && run != []
    && var n := |run| - 1;
       if n == 0 then trace == []
       else
         || (Silent(run[n - 1], spots) == Some(run[n]) && SourceRun(run[..n], trace, spots))
         || (trace != [] && Happens(run[n - 1], trace[|trace| - 1], run[n])
             && SourceRun(run[..n], trace[..|trace| - 1], spots))
  }

  function Start(body: seq<Stmt>): Point {
    Enter(Compound(body), Stop)
  }

  function Spots(body: seq<Stmt>): map<string, Point> {
    LabelPoints(Compound(body), Stop)
  }

  /** The body can show these events, and then be in that status; every run is running. */
  ghost predicate BodyShows(body: seq<Stmt>, trace: seq<Event>, status: Status) {
    exists run: seq<Point> :: SourceRun(run, trace, Spots(body)) && run[0] == Start(body)
                           && (status == Running || StatusOf(run[|run| - 1]) == status)
  }

  /** The event of one step of the code. */
  function EventOf(blocks: seq<seq<Instr>>, c: Config, d: Config): seq<Event> {
    if !Current(blocks, c) then []
    else
      match blocks[c.block][c.pc]
      case Alloc(v) => [Allocated(v)]
      case Eval(e) => [Evaluated(e, d.value)]
      case _ => []
  }

  function TraceOf(blocks: seq<seq<Instr>>, run: seq<Config>): seq<Event> {
    if |run| < 2 then []
    else
      var n := |run| - 1;
      TraceOf(blocks, run[..n]) + EventOf(blocks, run[n - 1], run[n])
  }

  function CodeStatus(blocks: seq<seq<Instr>>, c: Config): Status {
    if Current(blocks, c) && blocks[c.block][c.pc] == Instr.Return then Returned
    else if Current(blocks, c) && blocks[c.block][c.pc] == Fall then Fell
    else Running
  }

  ghost predicate CodeShows(blocks: seq<seq<Instr>>, trace: seq<Event>, status: Status) {
    exists run: seq<Config> :: Run(blocks, run) && TraceOf(blocks, run) == trace
                            && (status == Running || CodeStatus(blocks, run[|run| - 1]) == status)
  }
}
