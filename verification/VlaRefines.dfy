/** Lowered code shows exactly what the body shows: the same events in the same order, and the same ends. */
module VlaRefines {
  import opened Options
  import opened VlaCode
  import opened VlaProgram
  import opened VlaMeaning
  import opened VlaPlaces

  // ---------------------------------------------------------------- from the code to the body

  /** The run is at a place of the code. */
  ghost predicate Placed(marks: seq<seq<Place>>, c: Config) {
    c.block < |marks| && c.pc < |marks[c.block]|
  }

  ghost function PointOf(marks: seq<seq<Place>>, c: Config): Point
    requires Placed(marks, c)
  {
    Stands(marks[c.block][c.pc], c.value)
  }

  /** The body has a run with this trace that ends here. */
  ghost predicate Shows(body: seq<Stmt>, trace: seq<Event>, p: Point) {
    exists run: seq<Point> :: SourceRun(run, trace, Spots(body)) && run[0] == Start(body) && run[|run| - 1] == p
  }

  lemma ShowsSilent(body: seq<Stmt>, trace: seq<Event>, p: Point)
    requires Shows(body, trace, p) && Silent(p, Spots(body)).Some?
    ensures Shows(body, trace, Silent(p, Spots(body)).value)
  {
    hide Silent, Spots;
    var run: seq<Point> :| SourceRun(run, trace, Spots(body)) && run[0] == Start(body) && run[|run| - 1] == p;
    var more := run + [Silent(p, Spots(body)).value];
    assert more[..|run|] == run;
    assert SourceRun(more, trace, Spots(body));
  }

  lemma ShowsEvent(body: seq<Stmt>, trace: seq<Event>, p: Point, e: Event, q: Point)
    requires Shows(body, trace, p) && Happens(p, e, q)
    ensures Shows(body, trace + [e], q)
  {
    hide Silent, Spots, Happens;
    var run: seq<Point> :| SourceRun(run, trace, Spots(body)) && run[0] == Start(body) && run[|run| - 1] == p;
    var more := run + [q];
    assert more[..|run|] == run && (trace + [e])[..|trace|] == trace;
    assert SourceRun(more, trace + [e], Spots(body));
  }

  lemma {:induction false} ShowsGlide(body: seq<Stmt>, trace: seq<Event>, p: Point, n: nat, q: Point)
    requires Shows(body, trace, p) && Glide(p, n, Spots(body)) == Some(q)
    ensures Shows(body, trace, q)
    decreases n
  {
    hide Shows, Silent, Spots;
    if n > 0 {
      ShowsSilent(body, trace, p);
      ShowsGlide(body, trace, Silent(p, Spots(body)).value, n - 1, q);
    }
  }

  lemma ShowsSlide(body: seq<Stmt>, trace: seq<Event>, p: Point, q: Point)
    requires Shows(body, trace, p) && Slides(p, q, Spots(body))
    ensures Shows(body, trace, q)
  {
    hide Shows, Spots, Glide;
    var n: nat :| Glide(p, n, Spots(body)) == Some(q);
    ShowsGlide(body, trace, p, n, q);
  }

  lemma TrackedThere(blocks: seq<seq<Instr>>, marks: seq<seq<Place>>, starts: seq<Place>, body: seq<Stmt>, c: Config)
    requires Follows(blocks, marks, starts, body) && Current(blocks, c)
    ensures |marks| == |starts| == |blocks| && InstrTracked(blocks[c.block], marks[c.block], c.pc, starts, Spots(body))
    ensures forall t :: 0 <= t < |starts| ==> marks[t] != [] && marks[t][0] == starts[t]
  {
    hide InstrTracked, Spots;
    assert BlockTracked(blocks[c.block], marks[c.block], starts, Spots(body));
  }

  /** One step of the code is some steps of the body with the same event. */
  lemma StepShows(blocks: seq<seq<Instr>>, marks: seq<seq<Place>>, starts: seq<Place>, body: seq<Stmt>, trace: seq<Event>,
                  c: Config, d: Config)
    requires Follows(blocks, marks, starts, body) && Current(blocks, c) && Step(blocks, c, d)
    requires Placed(marks, c) && Shows(body, trace, PointOf(marks, c))
    ensures Placed(marks, d) && Shows(body, trace + EventOf(blocks, c, d), PointOf(marks, d))
  {
    hide Shows, Spots, Follows, Happens, Slides, Advances, Answer, Heard, PicksOf;
    TrackedThere(blocks, marks, starts, body, c);
    var i, p := blocks[c.block][c.pc], marks[c.block][c.pc];
    if Terminator(i) {
      assert trace + [] == trace;
      EndShows(blocks, marks, starts, body, trace, c, d);
    } else {
      var q := marks[c.block][c.pc + 1];
      match i
      case Alloc(v) =>
        var b :| Slides(p.point, b, Spots(body)) && Happens(b, Allocated(v), q.point);
        ShowsSlide(body, trace, p.point, b);
        ShowsEvent(body, trace, b, Allocated(v), q.point);
      case Free(_) =>
        assert trace + [] == trace;
      case Eval(e) =>
        var b :| Slides(p.point, b, Spots(body)) && Asks(b) == Some(e) && q == Heard(b);
        ShowsSlide(body, trace, p.point, b);
        HeardStands(b, d.value);
        assert Happens(b, Evaluated(e, d.value), Answer(b, d.value)) by { HappensHere(b, e, d.value); }
        ShowsEvent(body, trace, b, Evaluated(e, d.value), Answer(b, d.value));
    }
  }

  lemma HappensHere(p: Point, e: ExprId, value: int)
    requires Asks(p) == Some(e)
    ensures Happens(p, Evaluated(e, value), Answer(p, value))
  {
  }

  lemma EndShows(blocks: seq<seq<Instr>>, marks: seq<seq<Place>>, starts: seq<Place>, body: seq<Stmt>, trace: seq<Event>,
                 c: Config, d: Config)
    requires Follows(blocks, marks, starts, body) && Current(blocks, c) && Step(blocks, c, d)
    requires Terminator(blocks[c.block][c.pc])
    requires Placed(marks, c) && Shows(body, trace, PointOf(marks, c))
    ensures Placed(marks, d) && Shows(body, trace, PointOf(marks, d))
  {
    hide Shows, Spots, Follows, Slides, Answer;
    TrackedThere(blocks, marks, starts, body, c);
    var i, p := blocks[c.block][c.pc], marks[c.block][c.pc];
    match i
    case Jump(t) =>
      if p.At? {
        ShowsSilent(body, trace, p.point);
        ShowsSlide(body, trace, Silent(p.point, Spots(body)).value, starts[t].point);
      }
    case Branch(_, _) => Decided(p.point, c.value);
    case _ =>
  }

  lemma {:induction false} RunShows(blocks: seq<seq<Instr>>, marks: seq<seq<Place>>, starts: seq<Place>, body: seq<Stmt>,
                                    run: seq<Config>)
    requires Follows(blocks, marks, starts, body) && Run(blocks, run)
    ensures Placed(marks, run[|run| - 1]) && Shows(body, TraceOf(blocks, run), PointOf(marks, run[|run| - 1]))
    decreases |run|
  {
    hide Shows, Spots, Step, EventOf;
    var n := |run| - 1;
    if n == 0 {
      assert Shows(body, [], Start(body)) by { ShowsStart(body); }
    } else {
      RunShows(blocks, marks, starts, body, run[..n]);
      StepShows(blocks, marks, starts, body, TraceOf(blocks, run[..n]), run[n - 1], run[n]);
    }
  }

  lemma ShowsStart(body: seq<Stmt>)
    ensures Shows(body, [], Start(body))
  {
    assert SourceRun([Start(body)], [], Spots(body));
  }

  /** Whatever the code shows, the body shows. */
  lemma CodeThenBody(blocks: seq<seq<Instr>>, marks: seq<seq<Place>>, starts: seq<Place>, body: seq<Stmt>,
                     trace: seq<Event>, status: Status)
    requires Follows(blocks, marks, starts, body) && CodeShows(blocks, trace, status)
    ensures BodyShows(body, trace, status)
  {
    var run: seq<Config> :| Run(blocks, run) && TraceOf(blocks, run) == trace
                         && (status == Running || CodeStatus(blocks, run[|run| - 1]) == status);
    hide Follows, Spots, Slides, Silent, SourceRun, Run, BodyShows;
    var c := run[|run| - 1];
    RunShows(blocks, marks, starts, body, run);
    hide Shows, CodeStatus, PointOf;
    if status != Running {
      StatusShows(blocks, marks, starts, body, c, trace);
    } else {
      ShownThere(body, trace, PointOf(marks, c), status);
    }
  }

  lemma StatusShows(blocks: seq<seq<Instr>>, marks: seq<seq<Place>>, starts: seq<Place>, body: seq<Stmt>, c: Config, trace: seq<Event>)
    requires Follows(blocks, marks, starts, body) && CodeStatus(blocks, c) != Running
    requires Placed(marks, c) && Shows(body, trace, PointOf(marks, c))
    ensures BodyShows(body, trace, CodeStatus(blocks, c))
  {
    hide Follows, Spots, Slides, Silent, BodyShows, Shows, StatusOf;
    TrackedThere(blocks, marks, starts, body, c);
    var p := marks[c.block][c.pc];
    var q :| Slides(p.point, q, Spots(body)) && StatusOf(q) == CodeStatus(blocks, c);
    ShowsSlide(body, trace, p.point, q);
    ShownThere(body, trace, q, CodeStatus(blocks, c));
  }

  lemma ShownThere(body: seq<Stmt>, trace: seq<Event>, p: Point, status: Status)
    requires Shows(body, trace, p) && (status == Running || StatusOf(p) == status)
    ensures BodyShows(body, trace, status)
  {
    hide SourceRun, Spots;
  }

  lemma RunSome(blocks: seq<seq<Instr>>, run: seq<Config>)
    requires Run(blocks, run)
    ensures run != []
  {
  }

  // ---------------------------------------------------------------- from the body to the code

  /** How many comparisons and branches stand in front of a point. */
  function Rank(q: Place): nat {
    match q
    case At(_) => 0
    case Asked(_) => 1
    case Selecting(cases, _) => |cases| + 1
  }

  /** Where silent steps end, all ways there lie on one path. */
  lemma {:induction false} AlongGlide(p: Point, n: nat, q: Point, m: nat, r: Point, spots: map<string, Point>)
    requires Glide(p, n, spots) == Some(q) && Silent(q, spots).None? && Glide(p, m, spots) == Some(r)
    ensures m <= n && Glide(r, n - m, spots) == Some(q)
    decreases m
  {
    if m > 0 {
      AlongGlide(Silent(p, spots).value, n - 1, q, m - 1, r, spots);
    }
  }

  lemma OneEnd(p: Point, q: Point, r: Point, spots: map<string, Point>)
    requires Slides(p, q, spots) && Slides(p, r, spots) && Silent(q, spots).None? && Silent(r, spots).None?
    ensures q == r
  {
    var n: nat :| Glide(p, n, spots) == Some(q);
    var m: nat :| Glide(p, m, spots) == Some(r);
    AlongGlide(p, n, q, m, r, spots);
    AlongGlide(p, m, r, n, q, spots);
  }

  /** An instruction at which something happens, or the code ends. */
  predicate Loud(i: Instr) {
    i.Alloc? || i.Eval? || i.Return? || i.Fall?
  }

  lemma RunMore(blocks: seq<seq<Instr>>, run: seq<Config>, d: Config)
    requires Run(blocks, run) && Current(blocks, run[|run| - 1]) && Step(blocks, run[|run| - 1], d)
    ensures Run(blocks, run + [d])
    ensures TraceOf(blocks, run + [d]) == TraceOf(blocks, run) + EventOf(blocks, run[|run| - 1], d)
  {
    hide Step, EventOf;
    var more := run + [d];
    assert more[..|run|] == run;
    forall k | 0 <= k < |more| - 1
      ensures Current(blocks, more[k]) && Step(blocks, more[k], more[k + 1])
    {
      if k < |run| - 1 {
        assert more[k] == run[k] && more[k + 1] == run[k + 1];
      }
    }
  }

  /** The run is at a place from which silent steps lead to the point. */
  ghost predicate Near(blocks: seq<seq<Instr>>, marks: seq<seq<Place>>, run: seq<Config>, n: nat, q: Point, spots: map<string, Point>) {
    && run != [] && Run(blocks, run) && Placed(marks, run[|run| - 1]) && Glide(PointOf(marks, run[|run| - 1]), n, spots) == Some(q)
  }

  /** One quiet step towards the point, with fewer silent steps, comparisons or instructions left. */
  lemma QuietStep(blocks: seq<seq<Instr>>, scopes: seq<Scope>, done: set<Vla>, top: Scope, marks: seq<seq<Place>>,
                  starts: seq<Place>, body: seq<Stmt>, run: seq<Config>, n: nat, q: Point) returns (more: seq<Config>, m: nat)
    requires Certified(blocks, scopes, done, top) && Follows(blocks, marks, starts, body)
    requires Near(blocks, marks, run, n, q, Spots(body)) && Silent(q, Spots(body)).None?
    requires Current(blocks, run[|run| - 1])
    requires var c := run[|run| - 1]; !Loud(blocks[c.block][c.pc])
    ensures Near(blocks, marks, more, m, q, Spots(body)) && TraceOf(blocks, more) == TraceOf(blocks, run)
    ensures Current(blocks, more[|more| - 1]) && Nearer(blocks, marks, run[|run| - 1], n, more[|more| - 1], m)
  {
    var c := run[|run| - 1];
    hide Certified, Follows, Spots, Silent, Run, TraceOf, Answer, Step, Glide, Rank;
    RunsBalanced(blocks, scopes, done, top, run, |run| - 1);
    var d := QuietNext(blocks, scopes, top, c);
    m := QuietPlace(blocks, marks, starts, body, c, d, n, q);
    more := run + [d];
    RunMore(blocks, run, d);
    assert TraceOf(blocks, run) + [] == TraceOf(blocks, run);
    RunsBalanced(blocks, scopes, done, top, more, |more| - 1);
  }

  ghost predicate Nearer(blocks: seq<seq<Instr>>, marks: seq<seq<Place>>, c: Config, n: nat, d: Config, m: nat)
    requires Placed(marks, c) && Placed(marks, d) && Current(blocks, c) && Current(blocks, d)
  {
    var p, q := marks[c.block][c.pc], marks[d.block][d.pc];
    m < n || (m == n && (Rank(q) < Rank(p) || (q == p && |blocks[d.block]| - d.pc < |blocks[c.block]| - c.pc)))
  }

  lemma QuietNext(blocks: seq<seq<Instr>>, scopes: seq<Scope>, top: Scope, c: Config) returns (d: Config)
    requires |scopes| == |blocks| && Balanced(blocks, scopes, top, c) && !Loud(blocks[c.block][c.pc])
    ensures Step(blocks, c, d) && EventOf(blocks, c, d) == []
  {
    match blocks[c.block][c.pc]
    case Free(v) => d := Config(c.block, c.pc + 1, c.stack[..|c.stack| - 1], c.value);
    case Jump(t) => d := Config(t, 0, c.stack, c.value);
    case Branch(t, u) => d := Config(if c.value != 0 then t else u, 0, c.stack, c.value);
    case Match(v, t, u) => d := Config(if c.value == v then t else u, 0, c.stack, c.value);
  }

  lemma QuietPlace(blocks: seq<seq<Instr>>, marks: seq<seq<Place>>, starts: seq<Place>, body: seq<Stmt>, c: Config, d: Config,
                   n: nat, q: Point) returns (m: nat)
    requires Follows(blocks, marks, starts, body) && Current(blocks, c) && Step(blocks, c, d) && !Loud(blocks[c.block][c.pc])
    requires Placed(marks, c) && Glide(PointOf(marks, c), n, Spots(body)) == Some(q) && Silent(q, Spots(body)).None?
    ensures Placed(marks, d) && Glide(PointOf(marks, d), m, Spots(body)) == Some(q)
    ensures Current(blocks, d) ==> Nearer(blocks, marks, c, n, d, m)
  {
    hide Follows, Spots, Silent, Answer, Glide, Advances;
    TrackedThere(blocks, marks, starts, body, c);
    var i, p := blocks[c.block][c.pc], marks[c.block][c.pc];
    m := n;
    match i
    case Free(v) =>
    case Jump(t) =>
      if p.At? {
        m := JumpNearer(p.point, n, q, starts[t].point, Spots(body));
      }
    case Branch(t, u) => Decided(p.point, c.value);
    case Match(v, t, u) => FewerCases(p.cases, v);
  }

  lemma FewerCases(cases: map<int, Point>, v: int)
    requires v in cases
    ensures |cases - {v}| < |cases|
  {
    assert (cases - {v}).Keys == cases.Keys - {v};
    assert |(cases - {v}).Keys| == |cases - {v}|;
  }

  lemma JumpNearer(p: Point, n: nat, q: Point, r: Point, spots: map<string, Point>) returns (m: nat)
    requires Glide(p, n, spots) == Some(q) && Silent(q, spots).None? && Advances(p, r, spots)
    ensures m < n && Glide(r, m, spots) == Some(q)
  {
    var k: nat :| Glide(Silent(p, spots).value, k, spots) == Some(r);
    assert Glide(p, k + 1, spots) == Some(r);
    AlongGlide(p, n, q, k + 1, r, spots);
    m := n - (k + 1);
  }

  /** The code gets to the instruction that shows what happens at the point. */
  lemma {:induction false} Arrive(blocks: seq<seq<Instr>>, scopes: seq<Scope>, done: set<Vla>, top: Scope,
                                  marks: seq<seq<Place>>, starts: seq<Place>, body: seq<Stmt>, run: seq<Config>, n: nat, q: Point)
    returns (more: seq<Config>, m: nat)
    requires Certified(blocks, scopes, done, top) && Follows(blocks, marks, starts, body)
    requires Near(blocks, marks, run, n, q, Spots(body)) && Silent(q, Spots(body)).None?
    requires Current(blocks, run[|run| - 1])
    ensures Near(blocks, marks, more, m, q, Spots(body)) && TraceOf(blocks, more) == TraceOf(blocks, run)
    ensures var d := more[|more| - 1]; Current(blocks, d) && Loud(blocks[d.block][d.pc])
    decreases n, Rank(marks[run[|run| - 1].block][run[|run| - 1].pc]), |blocks[run[|run| - 1].block]| - run[|run| - 1].pc
  {
    hide Certified, Follows, Spots, Silent, Run, TraceOf;
    var c := run[|run| - 1];
    if Loud(blocks[c.block][c.pc]) {
      more, m := run, n;
    } else {
      var next, k := QuietStep(blocks, scopes, done, top, marks, starts, body, run, n, q);
      more, m := Arrive(blocks, scopes, done, top, marks, starts, body, next, k, q);
    }
  }

  /** The code has a run with this trace that is on its way to the point. */
  ghost predicate Reaches(blocks: seq<seq<Instr>>, marks: seq<seq<Place>>, spots: map<string, Point>, trace: seq<Event>, p: Point) {
    exists run: seq<Config>, n: nat :: Near(blocks, marks, run, n, p, spots) && TraceOf(blocks, run) == trace
  }

  lemma GlideOne(p: Point, n: nat, q: Point, spots: map<string, Point>)
    requires Glide(p, n, spots) == Some(q) && Silent(q, spots).Some?
    ensures Glide(p, n + 1, spots) == Silent(q, spots)
  {
    GlideFurther(p, n, q, 1, spots);
    assert Glide(Silent(q, spots).value, 0, spots) == Silent(q, spots);
  }

  lemma ReachesSilent(blocks: seq<seq<Instr>>, marks: seq<seq<Place>>, spots: map<string, Point>, trace: seq<Event>, p: Point)
    requires Reaches(blocks, marks, spots, trace, p) && Silent(p, spots).Some?
    ensures Reaches(blocks, marks, spots, trace, Silent(p, spots).value)
  {
    hide Silent, Run, TraceOf;
    var run: seq<Config>, n: nat :| Near(blocks, marks, run, n, p, spots) && TraceOf(blocks, run) == trace;
    GlideOne(PointOf(marks, run[|run| - 1]), n, p, spots);
    assert Near(blocks, marks, run, n + 1, Silent(p, spots).value, spots);
  }

  lemma EventLoud(p: Point, e: Event, q: Point, spots: map<string, Point>)
    requires Happens(p, e, q)
    ensures Silent(p, spots).None? && StatusOf(p) == Running
  {
  }

  /** At the instruction that shows an event, the code does what the body does. */
  lemma EventStep(blocks: seq<seq<Instr>>, scopes: seq<Scope>, top: Scope, marks: seq<seq<Place>>, starts: seq<Place>,
                  body: seq<Stmt>, c: Config, n: nat, p: Point, e: Event, q: Point) returns (d: Config)
    requires Follows(blocks, marks, starts, body) && |scopes| == |blocks| && Balanced(blocks, scopes, top, c)
    requires Loud(blocks[c.block][c.pc]) && Placed(marks, c) && Glide(PointOf(marks, c), n, Spots(body)) == Some(p)
    requires Happens(p, e, q)
    ensures Step(blocks, c, d) && EventOf(blocks, c, d) == [e] && Placed(marks, d) && PointOf(marks, d) == q
  {
    hide Follows, Spots, Silent, Answer, Glide, Heard, StatusOf, Happens;
    EventLoud(p, e, q, Spots(body));
    TrackedThere(blocks, marks, starts, body, c);
    var i, a := blocks[c.block][c.pc], marks[c.block][c.pc];
    assert a.At?;
    assert Slides(a.point, p, Spots(body));
    match i
    case Alloc(v) =>
      var b :| Slides(a.point, b, Spots(body)) && Happens(b, Allocated(v), marks[c.block][c.pc + 1].point);
      EventLoud(b, Allocated(v), marks[c.block][c.pc + 1].point, Spots(body));
      OneEnd(a.point, p, b, Spots(body));
      OneAllocation(p, v, marks[c.block][c.pc + 1].point, e, q);
      d := Config(c.block, c.pc + 1, c.stack + [v], c.value);
    case Eval(x) =>
      var b :| Slides(a.point, b, Spots(body)) && Asks(b) == Some(x) && marks[c.block][c.pc + 1] == Heard(b);
      HappensHere(b, x, 0);
      EventLoud(b, Evaluated(x, 0), Answer(b, 0), Spots(body));
      OneEnd(a.point, p, b, Spots(body));
      OneEvaluation(p, x, e, q);
      d := Config(c.block, c.pc + 1, c.stack, e.value);
      HeardStands(p, e.value);
    case Return =>
      var b :| Slides(a.point, b, Spots(body)) && StatusOf(b) == Returned;
      EndQuiet(b, Spots(body));
      OneEnd(a.point, p, b, Spots(body));
    case Fall =>
      var b :| Slides(a.point, b, Spots(body)) && StatusOf(b) == Fell;
      EndQuiet(b, Spots(body));
      OneEnd(a.point, p, b, Spots(body));
  }

  lemma EndQuiet(p: Point, spots: map<string, Point>)
    requires StatusOf(p) != Running
    ensures Silent(p, spots).None?
  {
  }

  lemma OneAllocation(p: Point, v: Vla, r: Point, e: Event, q: Point)
    requires Happens(p, Allocated(v), r) && Happens(p, e, q)
    ensures e == Allocated(v) && q == r
  {
  }

  lemma OneEvaluation(p: Point, x: ExprId, e: Event, q: Point)
    requires Asks(p) == Some(x) && Happens(p, e, q)
    ensures e.Evaluated? && e.expr == x && q == Answer(p, e.value)
  {
  }

  lemma ReachesEvent(blocks: seq<seq<Instr>>, scopes: seq<Scope>, done: set<Vla>, top: Scope, marks: seq<seq<Place>>,
                     starts: seq<Place>, body: seq<Stmt>, trace: seq<Event>, p: Point, e: Event, q: Point)
    requires Certified(blocks, scopes, done, top) && Follows(blocks, marks, starts, body)
    requires Reaches(blocks, marks, Spots(body), trace, p) && Happens(p, e, q)
    ensures Reaches(blocks, marks, Spots(body), trace + [e], q)
  {
    var run: seq<Config>, n: nat :| Near(blocks, marks, run, n, p, Spots(body)) && TraceOf(blocks, run) == trace;
    hide Certified, Follows, Spots, Silent, Run, TraceOf, Happens, Step, Glide;
    EventLoud(p, e, q, Spots(body));
    RunsBalanced(blocks, scopes, done, top, run, |run| - 1);
    var more, m := Arrive(blocks, scopes, done, top, marks, starts, body, run, n, p);
    RunsBalanced(blocks, scopes, done, top, more, |more| - 1);
    var d := EventStep(blocks, scopes, top, marks, starts, body, more[|more| - 1], m, p, e, q);
    RunMore(blocks, more, d);
    assert Glide(PointOf(marks, d), 0, Spots(body)) == Some(q) by { GlideNone(q, Spots(body)); }
    assert Near(blocks, marks, more + [d], 0, q, Spots(body));
  }

  lemma GlideNone(p: Point, spots: map<string, Point>)
    ensures Glide(p, 0, spots) == Some(p)
  {
  }

  lemma {:induction false} SourceReaches(blocks: seq<seq<Instr>>, scopes: seq<Scope>, done: set<Vla>, top: Scope,
                                         marks: seq<seq<Place>>, starts: seq<Place>, body: seq<Stmt>, run: seq<Point>,
                                         trace: seq<Event>)
    requires Certified(blocks, scopes, done, top) && Follows(blocks, marks, starts, body)
    requires SourceRun(run, trace, Spots(body)) && run[0] == Start(body)
    ensures Reaches(blocks, marks, Spots(body), trace, run[|run| - 1])
    decreases |run|
  {
    hide Certified, Spots, Silent, Run, TraceOf, Happens, Reaches, Start;
    var n := |run| - 1;
    if n == 0 {
      ReachesStart(blocks, scopes, done, top, marks, starts, body);
    } else {
      hide Follows;
      if Silent(run[n - 1], Spots(body)) == Some(run[n]) && SourceRun(run[..n], trace, Spots(body)) {
        SourceReaches(blocks, scopes, done, top, marks, starts, body, run[..n], trace);
        ReachesSilent(blocks, marks, Spots(body), trace, run[n - 1]);
      } else {
        var front, e := trace[..|trace| - 1], trace[|trace| - 1];
        SourceReaches(blocks, scopes, done, top, marks, starts, body, run[..n], front);
        ReachesEvent(blocks, scopes, done, top, marks, starts, body, front, run[n - 1], e, run[n]);
        assert front + [e] == trace;
      }
    }
  }

  lemma ReachesStart(blocks: seq<seq<Instr>>, scopes: seq<Scope>, done: set<Vla>, top: Scope, marks: seq<seq<Place>>,
                     starts: seq<Place>, body: seq<Stmt>)
    requires Certified(blocks, scopes, done, top) && Follows(blocks, marks, starts, body)
    ensures Reaches(blocks, marks, Spots(body), [], Start(body))
  {
    hide Certified, Spots, Silent;
    var run := [Config(0, 0, [], 0)];
    GlideNone(Start(body), Spots(body));
    assert Near(blocks, marks, run, 0, Start(body), Spots(body));
  }

  /** Whatever the body shows, the code shows. */
  lemma BodyThenCode(blocks: seq<seq<Instr>>, scopes: seq<Scope>, done: set<Vla>, top: Scope, marks: seq<seq<Place>>,
                     starts: seq<Place>, body: seq<Stmt>, trace: seq<Event>, status: Status)
    requires Certified(blocks, scopes, done, top) && Follows(blocks, marks, starts, body)
    requires BodyShows(body, trace, status)
    ensures CodeShows(blocks, trace, status)
  {
    var run: seq<Point> :| SourceRun(run, trace, Spots(body)) && run[0] == Start(body)
                        && (status == Running || StatusOf(run[|run| - 1]) == status);
    SourceReaches(blocks, scopes, done, top, marks, starts, body, run, trace);
    var p := run[|run| - 1];
    hide Certified, Follows, Spots, Silent, Run, TraceOf, SourceRun, Glide, StatusOf, CodeStatus;
    var code: seq<Config>, n: nat :| Near(blocks, marks, code, n, p, Spots(body)) && TraceOf(blocks, code) == trace;
    if status != Running {
      EndQuiet(p, Spots(body));
      RunsBalanced(blocks, scopes, done, top, code, |code| - 1);
      var more, m := Arrive(blocks, scopes, done, top, marks, starts, body, code, n, p);
      StatusHere(blocks, marks, starts, body, more[|more| - 1], m, p);
    }
  }

  lemma StatusHere(blocks: seq<seq<Instr>>, marks: seq<seq<Place>>, starts: seq<Place>, body: seq<Stmt>, c: Config, n: nat, p: Point)
    requires Follows(blocks, marks, starts, body) && Current(blocks, c) && Placed(marks, c)
    requires Loud(blocks[c.block][c.pc]) && Glide(PointOf(marks, c), n, Spots(body)) == Some(p)
    requires StatusOf(p) != Running
    ensures CodeStatus(blocks, c) == StatusOf(p)
  {
    hide Follows, Spots, Silent, Answer, Glide, Heard, StatusOf, Happens;
    EndQuiet(p, Spots(body));
    TrackedThere(blocks, marks, starts, body, c);
    var i, a := blocks[c.block][c.pc], marks[c.block][c.pc];
    assert a.At?;
    assert Slides(a.point, p, Spots(body));
    match i
    case Alloc(v) =>
      var b :| Slides(a.point, b, Spots(body)) && Happens(b, Allocated(v), marks[c.block][c.pc + 1].point);
      EventLoud(b, Allocated(v), marks[c.block][c.pc + 1].point, Spots(body));
      OneEnd(a.point, p, b, Spots(body));
    case Eval(x) =>
      var b :| Slides(a.point, b, Spots(body)) && Asks(b) == Some(x) && marks[c.block][c.pc + 1] == Heard(b);
      HappensHere(b, x, 0);
      EventLoud(b, Evaluated(x, 0), Answer(b, 0), Spots(body));
      OneEnd(a.point, p, b, Spots(body));
    case Return =>
      var b :| Slides(a.point, b, Spots(body)) && StatusOf(b) == Returned;
      EndQuiet(b, Spots(body));
      OneEnd(a.point, p, b, Spots(body));
    case Fall =>
      var b :| Slides(a.point, b, Spots(body)) && StatusOf(b) == Fell;
      EndQuiet(b, Spots(body));
      OneEnd(a.point, p, b, Spots(body));
  }

  /** The code and the body show the same. */
  lemma SameShown(blocks: seq<seq<Instr>>, scopes: seq<Scope>, done: set<Vla>, top: Scope, marks: seq<seq<Place>>,
                  starts: seq<Place>, body: seq<Stmt>, trace: seq<Event>, status: Status)
    requires Certified(blocks, scopes, done, top) && Follows(blocks, marks, starts, body)
    ensures CodeShows(blocks, trace, status) <==> BodyShows(body, trace, status)
  {
    hide *;
    if CodeShows(blocks, trace, status) {
      CodeThenBody(blocks, marks, starts, body, trace, status);
    }
    if BodyShows(body, trace, status) {
      BodyThenCode(blocks, scopes, done, top, marks, starts, body, trace, status);
    }
  }
}
