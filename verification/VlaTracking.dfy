/** What lowering keeps of the places: the code written so far does what the statements compiled so far do. */
module VlaTracking {
  import opened Options
  import opened VlaCode
  import opened VlaProgram
  import opened VlaMeaning
  import opened VlaPlaces
  import opened VlaInvariant

  /** The same place, or silent steps lead there. */
  ghost predicate Comes(a: Place, b: Place, spots: map<string, Point>) {
    a == b || (a.At? && b.At? && Slides(a.point, b.point, spots))
  }

  ghost predicate BlockAt(s: Lowering, b: nat)
    requires b < |s.blocks| == |s.marks| == |s.starts|
  {
    && s.marks[b] != [] && s.marks[b][0] == s.starts[b] && (s.blocks[b] == [] ==> |s.marks[b]| == 1)
    && BlockTracked(s.blocks[b], s.marks[b], s.starts, s.spots)
  }

  predicate Straight(code: seq<Instr>) {
    forall i :: 0 <= i < |code| ==> !Terminator(code[i])
  }

  /** The end of the current block stands for the current place. */
  ghost predicate OpenAt(s: Lowering)
    requires |s.blocks| == |s.marks|
  {
    && s.current < |s.blocks| && |s.marks[s.current]| == |s.blocks[s.current]| + 1 && Straight(s.blocks[s.current])
    && Comes(s.marks[s.current][|s.blocks[s.current]|], s.place, s.spots)
  }

  ghost predicate LabelsAt(s: Lowering) {
    && s.table.Keys <= s.spots.Keys
    && forall name :: name in s.labels ==> StartsAt(s, s.labels[name]) && name in s.spots && s.starts[s.labels[name]] == At(s.spots[name])
  }

  predicate StartsAt(s: Lowering, b: nat) {
    b < |s.starts|
  }

  ghost predicate Tracked(s: Lowering) {
    && |s.starts| == |s.marks| == |s.blocks|
    && (forall b :: 0 <= b < |s.blocks| ==> BlockAt(s, b))
    && (s.open ==> OpenAt(s))
    && LabelsAt(s)
  }

  // ---------------------------------------------------------------- blocks

  function WithStart(s: Lowering, at: Place): Lowering {
    s.(starts := s.starts + [at], marks := s.marks + [[at]])
  }

  lemma BlockStarted(s: Lowering, scope: Scope, at: Place)
    requires Tracked(s)
    ensures Tracked(WithStart(WithBlock(s, scope), at))
  {
    hide BlockTracked, Slides;
    var t := WithStart(WithBlock(s, scope), at);
    forall b | 0 <= b < |t.blocks|
      ensures BlockAt(t, b)
    {
      if b < |s.blocks| {
        assert BlockAt(s, b);
        BlockTrackedMore(s.blocks[b], s.marks[b], s.starts, t.starts, s.spots);
      } else {
        assert BlockTracked([], [at], t.starts, t.spots) by { NothingTracked([at], t.starts, t.spots); }
      }
    }
  }

  lemma NothingTracked(marks: seq<Place>, starts: seq<Place>, spots: map<string, Point>)
    ensures BlockTracked([], marks, starts, spots)
  {
  }

  /** Moving on to an empty block, where the place is that of its start. */
  lemma StartEntered(s: Lowering, b: nat)
    requires Tracked(s) && b < |s.blocks| && s.blocks[b] == []
    ensures |s.starts| == |s.blocks| && Tracked(s.(current := b, open := true, place := s.starts[b]))
  {
    hide BlockTracked, Slides;
    assert BlockAt(s, b);
    var t := s.(current := b, open := true, place := s.starts[b]);
    forall c | 0 <= c < |t.blocks|
      ensures BlockAt(t, c)
    {
      assert BlockAt(s, c);
    }
  }

  /** A silent step changes the place alone. */
  lemma PlaceMoved(s: Lowering, to: Point)
    requires Tracked(s) && s.open && s.place.At? && Silent(s.place.point, s.spots) == Some(to)
    ensures Tracked(s.(place := At(to)))
  {
    hide BlockTracked, Slides, Silent;
    var t := s.(place := At(to));
    forall c | 0 <= c < |t.blocks|
      ensures BlockAt(t, c)
    {
      assert BlockAt(s, c);
    }
    var last := s.marks[s.current][|s.blocks[s.current]|];
    SlidesOne(s.place.point, s.spots);
    if last != s.place {
      SlidesTrans(last.point, s.place.point, to, s.spots);
    }
  }

  /** The current block with one more instruction, and the place behind it. */
  function Noted(s: Lowering, i: Instr, mark: Place, place: Place): Lowering
    requires s.current < |s.blocks| == |s.marks|
  {
    Emitted(s, [i]).(marks := s.marks[s.current := s.marks[s.current] + [mark]], place := place)
  }

  lemma InstrAdded(s: Lowering, i: Instr, mark: Place, place: Place)
    requires Tracked(s) && s.open && !Terminator(i) && Comes(mark, place, s.spots)
    requires |s.marks| == |s.blocks| && s.current < |s.blocks| && |s.marks[s.current]| == |s.blocks[s.current]| + 1
    requires Linked(i, s.marks[s.current][|s.blocks[s.current]|], mark, s.spots)
    ensures Tracked(Noted(s, i, mark, place))
  {
    hide Slides, Linked, Comes;
    var t := Noted(s, i, mark, place);
    forall c | 0 <= c < |t.blocks|
      ensures BlockAt(t, c)
    {
      assert BlockAt(s, c);
      if c == s.current {
        TrackedLonger(s.blocks[c], s.marks[c], i, mark, s.starts, s.spots);
      }
    }
  }

  lemma TrackedLonger(code: seq<Instr>, marks: seq<Place>, i: Instr, mark: Place, starts: seq<Place>, spots: map<string, Point>)
    requires BlockTracked(code, marks, starts, spots) && Straight(code) && |marks| == |code| + 1
    requires !Terminator(i) && Linked(i, marks[|code|], mark, spots)
    ensures BlockTracked(code + [i], marks + [mark], starts, spots) && Straight(code + [i])
  {
    hide Linked, Ends;
    var longer := code + [i];
    forall n | 0 <= n < |longer|
      ensures InstrTracked(longer, marks + [mark], n, starts, spots)
    {
      if n < |code| {
        assert InstrTracked(code, marks, n, starts, spots);
      }
    }
  }

  /** An instruction links the end of the block as it links the place. */
  lemma LinkedFrom(i: Instr, last: Place, place: Place, next: Place, spots: map<string, Point>)
    requires Comes(last, place, spots) && Linked(i, place, next, spots) && !i.Free?
    ensures Linked(i, last, next, spots)
  {
    hide Slides, Silent, Heard;
    if last != place {
      match i
      case Alloc(v) =>
        var b :| Slides(place.point, b, spots) && Happens(b, Allocated(v), next.point);
        SlidesTrans(last.point, place.point, b, spots);
      case Eval(e) =>
        var b :| Slides(place.point, b, spots) && Asks(b) == Some(e) && next == Heard(b);
        SlidesTrans(last.point, place.point, b, spots);
    }
  }

  /** An instruction that does something. */
  lemma InstrLinked(s: Lowering, i: Instr, next: Place)
    requires Tracked(s) && s.open && !i.Free? && Linked(i, s.place, next, s.spots)
    ensures |s.marks| == |s.blocks| && s.current < |s.blocks| && Tracked(Noted(s, i, next, next))
  {
    hide Slides, Linked;
    LinkedFrom(i, s.marks[s.current][|s.blocks[s.current]|], s.place, next, s.spots);
    assert !Terminator(i) by { LinkedStraight(i, s.place, next, s.spots); }
    InstrAdded(s, i, next, next);
  }

  lemma LinkedStraight(i: Instr, p: Place, q: Place, spots: map<string, Point>)
    requires Linked(i, p, q, spots)
    ensures !Terminator(i)
  {
  }

  /** A release stays where it is. */
  function Released(s: Lowering, v: Vla): Lowering
    requires s.current < |s.blocks| == |s.marks| && s.marks[s.current] != []
  {
    Noted(s, Free(v), s.marks[s.current][|s.marks[s.current]| - 1], s.place)
  }

  lemma FreeAdded(s: Lowering, v: Vla)
    requires Tracked(s) && s.open
    ensures |s.marks| == |s.blocks| && s.current < |s.blocks| && s.marks[s.current] != [] && Tracked(Released(s, v))
  {
    hide Slides;
    InstrAdded(s, Free(v), s.marks[s.current][|s.blocks[s.current]|], s.place);
  }

  /** The end of a block. */
  function Finished(s: Lowering, i: Instr): Lowering
    requires s.current < |s.blocks|
  {
    Emitted(s, [i]).(open := false)
  }

  lemma EndAdded(s: Lowering, i: Instr)
    requires Tracked(s) && s.open && Terminator(i) && Ends(i, s.place, s.starts, s.spots)
    ensures s.current < |s.blocks| && Tracked(Finished(s, i))
  {
    hide Slides, Ends, Comes;
    var t := Finished(s, i);
    EndsFrom(i, s.marks[s.current][|s.blocks[s.current]|], s.place, s.starts, s.spots);
    forall c | 0 <= c < |t.blocks|
      ensures BlockAt(t, c)
    {
      assert BlockAt(s, c);
      if c == s.current {
        TrackedEnd(s.blocks[c], s.marks[c], i, s.starts, s.spots);
      }
    }
  }

  lemma TrackedEnd(code: seq<Instr>, marks: seq<Place>, i: Instr, starts: seq<Place>, spots: map<string, Point>)
    requires BlockTracked(code, marks, starts, spots) && Straight(code) && |marks| == |code| + 1
    requires Terminator(i) && Ends(i, marks[|code|], starts, spots)
    ensures BlockTracked(code + [i], marks, starts, spots)
  {
    hide Linked, Ends;
    var longer := code + [i];
    forall n | 0 <= n < |longer|
      ensures InstrTracked(longer, marks, n, starts, spots)
    {
      if n < |code| {
        assert InstrTracked(code, marks, n, starts, spots);
      }
    }
  }

  lemma EndsFrom(i: Instr, last: Place, place: Place, starts: seq<Place>, spots: map<string, Point>)
    requires Comes(last, place, spots) && Ends(i, place, starts, spots)
    ensures Ends(i, last, starts, spots)
  {
    hide Slides, Advances, Silent, StatusOf, Answer;
    if last != place {
      match i
      case Jump(t) => AdvancesLater(last.point, place.point, starts[t].point, spots);
      case Return =>
        var q :| Slides(place.point, q, spots) && StatusOf(q) == Returned;
        SlidesTrans(last.point, place.point, q, spots);
      case Fall =>
        var q :| Slides(place.point, q, spots) && StatusOf(q) == Fell;
        SlidesTrans(last.point, place.point, q, spots);
      case _ =>
    }
  }

  lemma TrackedLengths(s: Lowering)
    requires Tracked(s)
    ensures |s.starts| == |s.marks| == |s.blocks|
  {
  }

  lemma EndsTerminates(i: Instr, p: Place, starts: seq<Place>, spots: map<string, Point>)
    requires Ends(i, p, starts, spots)
    ensures Terminator(i)
  {
  }

  lemma EvalLinks(e: ExprId, p: Point, spots: map<string, Point>)
    requires Asks(p) == Some(e)
    ensures Linked(Eval(e), At(p), Heard(p), spots)
  {
    SlidesSelf(p, spots);
  }

  lemma AllocLinks(v: Vla, p: Point, next: Point, spots: map<string, Point>)
    requires Happens(p, Allocated(v), next)
    ensures Linked(Alloc(v), At(p), At(next), spots)
  {
    SlidesSelf(p, spots);
  }

  /** A jump to the point that a silent step leads to. */
  lemma StepEnds(p: Point, b: nat, to: Point, starts: seq<Place>, spots: map<string, Point>)
    requires Silent(p, spots) == Some(to) && b < |starts| && starts[b] == At(to)
    ensures Ends(Jump(b), At(p), starts, spots)
  {
    SlidesSelf(to, spots);
  }

  lemma AllocHappens(arrays: Scope, i: nat, k: Kont)
    requires i < |arrays|
    ensures Happens(Enter(Declare(arrays[i..]), k), Allocated(arrays[i]), Enter(Declare(arrays[i + 1..]), k))
  {
    assert arrays[i..][1..] == arrays[i + 1..];
  }

  lemma ReturnEnds(k: Kont, starts: seq<Place>, spots: map<string, Point>)
    ensures Ends(Instr.Return, At(Enter(ReturnStmt(None), k)), starts, spots)
  {
    SlidesSelf(Enter(ReturnStmt(None), k), spots);
  }

  lemma FallEnds(ss: seq<Stmt>, starts: seq<Place>, spots: map<string, Point>)
    ensures Ends(Fall, At(Resume(Seq(ss, |ss|, Stop))), starts, spots)
  {
    SlidesOne(Resume(Seq(ss, |ss|, Stop)), spots);
  }

  lemma BranchEnds(p: Point, t: nat, u: nat, starts: seq<Place>, spots: map<string, Point>)
    requires Asks(p).Some? && Decides(p) && t < |starts| && u < |starts|
    requires starts[t] == At(Answer(p, 1)) && starts[u] == At(Answer(p, 0))
    ensures Ends(Branch(t, u), Asked(p), starts, spots)
  {
  }

  lemma DoEnds(s: Stmt, k: Kont, b: nat, starts: seq<Place>, spots: map<string, Point>)
    requires s.Do? && b < |starts| && starts[b] == At(Enter(s.body, Back(s, k)))
    ensures Ends(Jump(b), At(Enter(s, k)), starts, spots)
  {
    StepEnds(Enter(s, k), b, Enter(s.body, Back(s, k)), starts, spots);
  }

  lemma WhileEnds(s: Stmt, k: Kont, b: nat, starts: seq<Place>, spots: map<string, Point>)
    requires s.While? && b < |starts| && starts[b] == At(Again(s, k))
    ensures Ends(Jump(b), At(Enter(s, k)), starts, spots)
  {
    StepEnds(Enter(s, k), b, Again(s, k), starts, spots);
  }

  lemma BeginEnds(s: Stmt, k: Kont, b: nat, starts: seq<Place>, spots: map<string, Point>)
    requires b < |starts| && starts[b] == At(Turn(s, k))
    ensures Ends(Jump(b), At(Resume(Begin(s, k))), starts, spots)
  {
    StepEnds(Resume(Begin(s, k)), b, Turn(s, k), starts, spots);
  }

  /** The block of the step of a for statement: the step, if there is one, and back to the condition. */
  lemma StepTurns(s: Stmt, k: Kont, b: nat, starts: seq<Place>, spots: map<string, Point>)
    requires s.For? && b < |starts| && starts[b] == At(Turn(s, k))
    ensures Asks(Again(s, k)) == s.step
    ensures if s.step.Some? then Ends(Jump(b), Heard(Again(s, k)), starts, spots)
            else Silent(Again(s, k), spots) == Some(Resume(Begin(s, k))) && Ends(Jump(b), At(Resume(Begin(s, k))), starts, spots)
  {
    BeginEnds(s, k, b, starts, spots);
  }

  /** The condition of a do or while statement. */
  lemma ConditionEnds(s: Stmt, k: Kont, t: nat, u: nat, starts: seq<Place>, spots: map<string, Point>)
    requires (s.Do? || s.While?) && t < |starts| && u < |starts|
    requires starts[t] == At(Enter(s.body, Back(s, k))) && starts[u] == At(Resume(k))
    ensures Asks(Again(s, k)) == Some(s.condition) && Ends(Branch(t, u), Heard(Again(s, k)), starts, spots)
  {
    BranchEnds(Again(s, k), t, u, starts, spots);
  }

  lemma IfEnds(s: Stmt, k: Kont, t: nat, u: nat, starts: seq<Place>, spots: map<string, Point>)
    requires s.If? && t < |starts| && u < |starts| && starts[t] == At(Enter(s.yes, Join(k)))
    requires starts[u] == At(if s.no.Some? then Enter(s.no.value, Join(k)) else Resume(Join(k)))
    ensures Asks(Enter(s, k)) == Some(s.condition) && Ends(Branch(t, u), Heard(Enter(s, k)), starts, spots)
  {
    BranchEnds(Enter(s, k), t, u, starts, spots);
  }

  lemma ForMoves(s: Stmt, k: Kont, spots: map<string, Point>)
    requires s.For?
    ensures Silent(Enter(s, k), spots) == Some(Enter(s.init, Begin(s, k)))
  {
  }

  lemma LabelMoves(s: Stmt, k: Kont, spots: map<string, Point>)
    requires s.Label? || s.Case? || s.Default?
    ensures Silent(Enter(s, k), spots) == Some(Enter(s.inner, k))
  {
  }

  lemma GotoEnds(name: string, k: Kont, b: nat, starts: seq<Place>, spots: map<string, Point>)
    requires name in spots && b < |starts| && starts[b] == At(spots[name])
    ensures Ends(Jump(b), At(Enter(Goto(name), k)), starts, spots)
  {
    StepEnds(Enter(Goto(name), k), b, spots[name], starts, spots);
  }

  /** Places may be added to what only grew. */
  lemma GrowsStarts(s: Lowering, t: Lowering, u: Lowering)
    requires Grows(s, t) && u == Renamed(t, u.starts, u.marks, u.place) && s.starts <= u.starts
    ensures Grows(s, u) && u.seen == t.seen
  {
  }

  // ---------------------------------------------------------------- other parts of the state

  /** Labels, lists of arrays and targets do not matter to the places. */
  lemma TrackedSame(s: Lowering, t: Lowering)
    requires Tracked(s) && LabelsAt(t)
    requires t.blocks == s.blocks && t.starts == s.starts && t.marks == s.marks && t.spots == s.spots && t.place == s.place
    requires t.current == s.current && t.open == s.open
    ensures Tracked(t)
  {
    hide BlockTracked, Slides;
    forall c | 0 <= c < |t.blocks|
      ensures BlockAt(t, c)
    {
      assert BlockAt(s, c);
    }
  }

  lemma SeenApart(s: Lowering, seen: set<Vla>)
    requires Tracked(s)
    ensures Tracked(s.(seen := seen))
  {
    hide BlockAt, OpenAt;
    TrackedSame(s, s.(seen := seen));
  }

  lemma ArraysApart(s: Lowering, stack: seq<Vla>, seen: set<Vla>, done: set<Vla>)
    requires Tracked(s)
    ensures Tracked(s.(stack := stack, seen := seen, done := done))
  {
    hide BlockAt, OpenAt;
    TrackedSame(s, s.(stack := stack, seen := seen, done := done));
  }

  lemma DepthsApart(s: Lowering, depths: map<string, nat>)
    requires Tracked(s)
    ensures Tracked(s.(depths := depths))
  {
    hide BlockAt, OpenAt;
    TrackedSame(s, s.(depths := depths));
  }

  lemma TargetsApart(s: Lowering, loops: seq<Target>, breaks: seq<Exit>, switches: seq<Cases>, insides: seq<Scope>)
    requires Tracked(s)
    ensures Tracked(Aimed(s, loops, breaks, switches, insides))
  {
    hide BlockAt, OpenAt;
    TrackedSame(s, Aimed(s, loops, breaks, switches, insides));
  }

  lemma LabelNamed(s: Lowering, name: string, block: nat)
    requires Tracked(s) && name in s.spots && block < |s.starts| && s.starts[block] == At(s.spots[name])
    ensures Tracked(s.(labels := s.labels[name := block]))
  {
    hide BlockAt, OpenAt;
    TrackedSame(s, s.(labels := s.labels[name := block]));
  }

  lemma SpotThere(s: Lowering, name: string)
    requires Tracked(s) && name in s.table
    ensures name in s.spots
  {
  }

  lemma LabelThere(s: Lowering, name: string)
    requires Tracked(s) && name in s.labels
    ensures name in s.spots && s.labels[name] < |s.starts| && s.starts[s.labels[name]] == At(s.spots[name])
  {
    hide BlockAt, OpenAt;
    assert StartsAt(s, s.labels[name]);
  }

  // ---------------------------------------------------------------- where break, continue and case go

  ghost predicate StartIs(s: Lowering, b: nat, p: Point) {
    b < |s.starts| && s.starts[b] == At(p)
  }

  ghost predicate BreaksAt(s: Lowering, k: Kont) {
    && (s.breaks != [] <==> BreakTo(k).Some?)
    && (s.breaks != [] ==> StartIs(s, s.breaks[|s.breaks| - 1].block, BreakTo(k).value))
  }

  ghost predicate LoopsAt(s: Lowering, k: Kont) {
    && (s.loops != [] <==> ContinueTo(k).Some?)
    && (s.loops != [] ==> StartIs(s, s.loops[|s.loops| - 1].next, ContinueTo(k).value))
  }

  ghost predicate PicksAt(s: Lowering, cases: Cases, picks: Picks) {
    && cases.values.Keys == picks.cases.Keys && (cases.default.Some? <==> picks.default.Some?)
    && (forall v :: v in cases.values ==> v in picks.cases && StartIs(s, cases.values[v], picks.cases[v]))
    && (cases.default.Some? ==> StartIs(s, cases.default.value, picks.default.value))
  }

  /** The targets of the state are those of the statement's surroundings. */
  ghost predicate Aiming(s: Lowering, k: Kont, picks: Option<Picks>) {
    && BreaksAt(s, k) && LoopsAt(s, k) && (s.switches != [] <==> picks.Some?)
    && (s.switches != [] ==> PicksAt(s, s.switches[|s.switches| - 1], picks.value))
  }

  lemma AimsGrow(s: Lowering, t: Lowering, k: Kont, picks: Option<Picks>)
    requires Aiming(s, k, picks) && Grows(s, t)
    ensures Aiming(t, k, picks)
  {
  }

  lemma AimsSame(s: Lowering, t: Lowering, k: Kont, picks: Option<Picks>)
    requires Aiming(s, k, picks) && t.starts == s.starts && t.loops == s.loops && t.breaks == s.breaks && t.switches == s.switches
    ensures Aiming(t, k, picks)
  {
  }

  /** Inside a block, a branch or an initialiser the targets stay. */
  lemma AimsInside(s: Lowering, k: Kont, inner: Kont, picks: Option<Picks>)
    requires Aiming(s, k, picks) && BreakTo(inner) == BreakTo(k) && ContinueTo(inner) == ContinueTo(k)
    ensures Aiming(s, inner, picks)
  {
  }

  lemma AimsLoop(s: Lowering, k: Kont, picks: Option<Picks>, loop: Stmt, next: nat, exit: nat)
    requires Aiming(s, k, picks) && StartIs(s, next, Again(loop, k)) && StartIs(s, exit, Resume(k))
    ensures Aiming(InLoop(s, next, exit), Back(loop, k), picks)
  {
  }

  lemma AimsSwitch(s: Lowering, k: Kont, old_: Option<Picks>, cases: Cases, picks: Picks, exit: nat, scope: Scope)
    requires Aiming(s, k, old_) && PicksAt(s, cases, picks) && StartIs(s, exit, Resume(k))
    ensures Aiming(InSwitch(s, cases, exit, scope), Leave(k), Some(picks))
  {
    var t := InSwitch(s, cases, exit, scope);
    assert PicksAt(t, cases, picks);
  }

  lemma PickThere(s: Lowering, k: Kont, picks: Option<Picks>)
    requires Aiming(s, k, picks) && s.switches != []
    ensures picks.Some?
    ensures var cases := s.switches[|s.switches| - 1];
      && (forall v :: v in cases.values ==> v in picks.value.cases && StartIs(s, cases.values[v], picks.value.cases[v]))
      && (cases.default.Some? ==> picks.value.default.Some? && StartIs(s, cases.default.value, picks.value.default.value))
  {
  }

  lemma OnePlaceCase(s: Stmt, k: Kont, spots: map<string, Point>, picks: Option<Picks>)
    requires (s.Case? || s.Default?) && OnePlace(s, k, spots, picks) && picks.Some?
    ensures OnePlace(s.inner, k, spots, picks)
    ensures s.Case? && s.value in picks.value.cases ==> picks.value.cases[s.value] == Enter(s.inner, k)
    ensures s.Default? && picks.value.default.Some? ==> picks.value.default.value == Enter(s.inner, k)
  {
  }

  lemma OnePlaceLabel(s: Stmt, k: Kont, spots: map<string, Point>, picks: Option<Picks>)
    requires s.Label? && OnePlace(s, k, spots, picks)
    ensures OnePlace(s.inner, k, spots, picks) && s.name in spots && spots[s.name] == Enter(s.inner, k)
  {
  }

  lemma OnePlacePart(ss: seq<Stmt>, i: nat, k: Kont, spots: map<string, Point>, picks: Option<Picks>)
    requires i < |ss| && OnePlace(Compound(ss), k, spots, picks)
    ensures OnePlace(ss[i], Seq(ss, i + 1, k), spots, picks)
  {
  }

  lemma IfParts(s: Stmt, k: Kont, spots: map<string, Point>, picks: Option<Picks>)
    requires s.If? && OnePlace(s, k, spots, picks)
    ensures OnePlace(s.yes, Join(k), spots, picks) && (s.no.Some? ==> OnePlace(s.no.value, Join(k), spots, picks))
  {
  }

  lemma LoopParts(s: Stmt, k: Kont, spots: map<string, Point>, picks: Option<Picks>)
    requires (s.Do? || s.While? || s.For?) && OnePlace(s, k, spots, picks)
    ensures OnePlace(s.body, Back(s, k), spots, picks) && (s.For? ==> OnePlace(s.init, Begin(s, k), spots, picks))
  {
  }

  lemma SwitchParts(s: Stmt, k: Kont, spots: map<string, Point>, picks: Option<Picks>)
    requires s.Switch? && OnePlace(s, k, spots, picks)
    ensures OnePlace(s.body, Leave(k), spots, Some(PicksOf(s.body, Leave(k))))
  {
  }

  lemma PickBlocks(s: Lowering, cases: Cases, picks: Picks)
    requires PicksAt(s, cases, picks)
    ensures cases.values.Keys == picks.cases.Keys && (cases.default.Some? <==> picks.default.Some?)
    ensures cases.default.Some? ==> StartIs(s, cases.default.value, picks.default.value)
  {
  }

  lemma NoTargets(s: Lowering)
    requires s.loops == [] && s.breaks == [] && s.switches == []
    ensures Aiming(s, Stop, None)
  {
  }

  lemma BreakEnds(s: Lowering, k: Kont, picks: Option<Picks>)
    requires Aiming(s, k, picks) && s.breaks != []
    ensures Ends(Jump(s.breaks[|s.breaks| - 1].block), At(Enter(Break, k)), s.starts, s.spots)
  {
    StepEnds(Enter(Break, k), s.breaks[|s.breaks| - 1].block, BreakTo(k).value, s.starts, s.spots);
  }

  lemma ContinueEnds(s: Lowering, k: Kont, picks: Option<Picks>)
    requires Aiming(s, k, picks) && s.loops != []
    ensures Ends(Jump(s.loops[|s.loops| - 1].next), At(Enter(Continue, k)), s.starts, s.spots)
  {
    StepEnds(Enter(Continue, k), s.loops[|s.loops| - 1].next, ContinueTo(k).value, s.starts, s.spots);
  }

  lemma CaseThere(body: Stmt, k: Kont, v: int)
    requires v in CaseValues(body)
    ensures v in PicksOf(body, k).cases
  {
    CasesFound(body, k);
  }

  lemma PicksGrow(s: Lowering, t: Lowering, cases: Cases, picks: Picks)
    requires PicksAt(s, cases, picks) && s.starts <= t.starts
    ensures PicksAt(t, cases, picks)
  {
  }

  lemma StartGrows(s: Lowering, t: Lowering, b: nat, p: Point)
    requires StartIs(s, b, p) && s.starts <= t.starts
    ensures StartIs(t, b, p)
  {
  }

  // ---------------------------------------------------------------- the cases of a switch

  /** What is collected for a switch is what its body has. */
  lemma {:induction false} CasesFound(s: Stmt, k: Kont)
    ensures forall v :: v in CaseValues(s) <==> v in CasePoints(s, k)
    ensures HasDefault(s) <==> DefaultPoint(s, k).Some?
    decreases s, 0
  {
    match s
    case Compound(ss) => CasesFoundBy(ss, |ss|, k, s);
    case If(_, yes, no) =>
      CasesFound(yes, Join(k));
      if no.Some? {
        CasesFound(no.value, Join(k));
      }
    case Do(body, _) => CasesFound(body, Back(s, k));
    case While(_, body) => CasesFound(body, Back(s, k));
    case For(_, _, _, body) => CasesFound(body, Back(s, k));
    case Case(_, inner) => CasesFound(inner, k);
    case Default(inner) => CasesFound(inner, k);
    case Label(_, inner) => CasesFound(inner, k);
    case _ =>
  }

  lemma {:induction false} CasesFoundBy(ss: seq<Stmt>, i: nat, k: Kont, whole: Stmt)
    requires whole == Compound(ss) && i <= |ss|
    ensures forall v :: v in CaseValuesBy(ss, i) <==> v in CasePointsBy(ss, i, k, whole)
    ensures (exists n :: 0 <= n < i && HasDefault(ss[n])) <==> DefaultPointBy(ss, i, k, whole).Some?
    decreases whole, 0, i
  {
    hide CaseValues, CasePoints, HasDefault, DefaultPoint;
    if i > 0 {
      CasesFoundBy(ss, i - 1, k, whole);
      CasesFound(ss[i - 1], Seq(ss, i, k));
    }
  }

  /** Blocks were made for these values so far, each starting where the case stands. */
  ghost predicate PicksSoFar(s: Lowering, cases: Cases, values: seq<int>, picks: Picks) {
    && cases.default.None?
    && (forall v :: v in cases.values <==> v in values)
    && (forall v :: v in cases.values ==> v in picks.cases && StartIs(s, cases.values[v], picks.cases[v]))
  }

  lemma NoPicks(s: Lowering, picks: Picks)
    ensures PicksSoFar(s, Cases(map[], None), [], picks)
  {
  }

  lemma PickKept(s: Lowering, t: Lowering, cases: Cases, values: seq<int>, i: nat, picks: Picks)
    requires i < |values| && PicksSoFar(s, cases, values[..i], picks) && s.starts <= t.starts && values[i] in cases.values
    ensures PicksSoFar(t, cases, values[..i + 1], picks)
  {
    assert values[..i + 1] == values[..i] + [values[i]];
  }

  lemma PickAdded(s: Lowering, t: Lowering, cases: Cases, values: seq<int>, i: nat, picks: Picks, block: nat)
    requires i < |values| && PicksSoFar(s, cases, values[..i], picks) && s.starts <= t.starts
    requires values[i] in picks.cases && StartIs(t, block, picks.cases[values[i]])
    ensures PicksSoFar(t, cases.(values := cases.values[values[i] := block]), values[..i + 1], picks)
  {
    assert values[..i + 1] == values[..i] + [values[i]];
  }

  lemma PicksDone(s: Lowering, t: Lowering, cases: Cases, body: Stmt, k: Kont, default: Option<nat>)
    requires PicksSoFar(s, cases, CaseValues(body), PicksOf(body, k)) && s.starts <= t.starts
    requires default.Some? <==> HasDefault(body)
    requires default.Some? ==> DefaultPoint(body, k).Some? && StartIs(t, default.value, DefaultPoint(body, k).value)
    ensures PicksAt(t, cases.(default := default), PicksOf(body, k))
  {
    hide CaseValues, CasePoints, DefaultPoint, HasDefault;
    CasesFound(body, k);
    var done, picks := cases.(default := default), PicksOf(body, k);
    forall v
      ensures v in done.values <==> v in picks.cases
    {
      assert v in cases.values <==> v in CaseValues(body);
    }
    assert done.values.Keys == picks.cases.Keys;
    assert done.default.Some? <==> picks.default.Some?;
    forall v | v in done.values
      ensures v in picks.cases && StartIs(t, done.values[v], picks.cases[v])
    {
      assert v in cases.values && StartIs(s, cases.values[v], picks.cases[v]);
    }
  }

  /** The next comparison. */
  lemma MatchEnds(s: Lowering, cases: Cases, picks: Picks, left: map<int, Point>, otherwise: Point, v: int, next: nat)
    requires PicksAt(s, cases, picks) && v in left && v in cases.values && left[v] == picks.cases[v]
    requires next < |s.starts| && s.starts[next] == Selecting(left - {v}, otherwise)
    ensures Ends(Match(v, cases.values[v], next), Selecting(left, otherwise), s.starts, s.spots)
  {
  }

  /** No comparison is left. */
  lemma OtherwiseEnds(otherwise: Point, t: nat, starts: seq<Place>, spots: map<string, Point>)
    requires t < |starts| && starts[t] == At(otherwise)
    ensures Ends(Jump(t), Selecting(map[], otherwise), starts, spots)
  {
  }

  // ---------------------------------------------------------------- the whole function

  lemma StartTracked(s: Lowering, body: seq<Stmt>)
    requires s.blocks == [[]] && s.current == 0 && s.open && s.labels == map[] && s.table.Keys <= s.spots.Keys
    requires s.starts == [At(Start(body))] && s.marks == [[At(Start(body))]] && s.place == At(Start(body))
    ensures Tracked(s)
  {
  }

  lemma TrackedFollows(s: Lowering, body: seq<Stmt>)
    requires Tracked(s) && s.blocks != [] && s.spots == Spots(body) && s.starts[0] == At(Start(body))
    ensures Follows(s.blocks, s.marks, s.starts, body)
  {
    hide BlockTracked, Spots;
    forall b | 0 <= b < |s.blocks|
      ensures s.marks[b] != [] && s.marks[b][0] == s.starts[b] && BlockTracked(s.blocks[b], s.marks[b], s.starts, Spots(body))
    {
      assert BlockAt(s, b);
    }
  }

  lemma {:induction false} SpotsKeys(s: Stmt, scope: Scope, k: Kont)
    ensures LabelPoints(s, k).Keys == Labels(s, scope).Keys
    decreases s, 0
  {
    match s
    case Compound(ss) => SpotsByKeys(ss, |ss|, scope, k, s);
    case If(_, yes, no) =>
      SpotsKeys(yes, scope, Join(k));
      if no.Some? {
        SpotsKeys(no.value, scope, Join(k));
      }
    case Do(body, _) => SpotsKeys(body, scope, Back(s, k));
    case While(_, body) => SpotsKeys(body, scope, Back(s, k));
    case For(init, _, _, body) =>
      SpotsKeys(init, scope, Begin(s, k));
      SpotsKeys(body, After(init, scope), Back(s, k));
    case Switch(_, body) => SpotsKeys(body, scope, Leave(k));
    case Case(_, inner) => SpotsKeys(inner, scope, k);
    case Default(inner) => SpotsKeys(inner, scope, k);
    case Label(_, inner) => SpotsKeys(inner, scope, k);
    case _ =>
  }

  lemma {:induction false} SpotsByKeys(ss: seq<Stmt>, i: nat, scope: Scope, k: Kont, whole: Stmt)
    requires whole == Compound(ss) && i <= |ss|
    ensures LabelPointsBy(ss, i, k, whole).Keys == LabelsBy(ss, i, scope).Keys
    decreases whole, 0, i
  {
    if i > 0 {
      SpotsByKeys(ss, i - 1, scope, k, whole);
      SpotsKeys(ss[i - 1], AfterAll(ss, i - 1, scope), Seq(ss, i, k));
    }
  }

  lemma BodyPlaces(body: seq<Stmt>)
    ensures LabelsBy(body, |body|, []).Keys == Spots(body).Keys
  {
    SpotsKeys(Compound(body), [], Stop);
  }
}

/** What each step of the lowering does to its state. */
module VlaEmission {
  import opened Options
  import opened VlaCode
  import opened VlaProgram
  import opened VlaMeaning
  import opened VlaPlaces
  import opened VlaInvariant
  import opened VlaTracking

  lemma BlockCreated(s: Lowering, scope: Scope, added: Scope, at: Place)
    requires Inv(s, scope) && Tracked(s) && Elements(added) <= s.seen
    ensures var t := WithStart(WithBlock(s, added), at); Inv(t, scope) && Tracked(t) && Passes(s, t, {})
    ensures |s.scopes| == |s.starts| == |s.marks| == |s.blocks|
  {
    hide Inv, Tracked, Grows;
    var u := WithBlock(s, added);
    BlockAdded(s, scope, added);
    BlockStarted(s, added, at);
    TrackedLengths(s);
    InvShaped(s, scope);
    PlacesApart(u, scope, s.starts + [at], s.marks + [[at]], s.place);
    GrowsStarts(s, u, WithStart(u, at));
  }

  lemma BlockThere(s: Lowering, scope: Scope, b: nat)
    requires Inv(s, scope) && Tracked(s) && b < |s.scopes|
    ensures b < |s.blocks| == |s.starts| && Passes(s, s, {})
  {
    hide Inv, Tracked;
    InvShaped(s, scope);
    TrackedLengths(s);
    PassesSelf(s);
  }

  lemma BlockOpened(s: Lowering, scope: Scope, b: nat)
    requires Inv(s, scope) && Tracked(s) && !s.open && b < |s.blocks| && b < |s.scopes| && s.blocks[b] == [] && s.scopes[b] == scope
    ensures b < |s.starts|
    ensures var t := s.(current := b, open := true, place := s.starts[b]); Inv(t, scope) && Tracked(t) && Passes(s, t, {})
  {
    hide Inv, Tracked;
    TrackedLengths(s);
    BlockEntered(s, scope, b);
    StartEntered(s, b);
    PlacesApart(s.(current := b, open := true), scope, s.starts, s.marks, s.starts[b]);
  }

  lemma MovedThere(s: Lowering, scope: Scope, to: Point)
    requires Inv(s, scope) && Tracked(s) && s.open && s.place.At? && Silent(s.place.point, s.spots) == Some(to)
    ensures var t := s.(place := At(to)); Inv(t, scope) && Tracked(t) && Passes(s, t, {})
  {
    hide Inv, Tracked, Silent;
    PlaceMoved(s, to);
    PlacesApart(s, scope, s.starts, s.marks, At(to));
  }

  lemma EvaluatedThere(s: Lowering, scope: Scope, e: ExprId)
    requires Inv(s, scope) && Tracked(s) && s.open && s.place.At? && Asks(s.place.point) == Some(e)
    ensures s.current < |s.blocks| == |s.marks|
    ensures var t := Noted(s, Eval(e), Heard(s.place.point), Heard(s.place.point));
      Inv(t, scope) && Tracked(t) && Passes(s, t, {})
  {
    hide Inv, Tracked, Heard, Linked, Grows;
    var q := Heard(s.place.point);
    Evaluating(s, scope, e);
    EvalLinks(e, s.place.point, s.spots);
    InstrLinked(s, Eval(e), q);
    var u, t := Emitted(s, [Eval(e)]), Noted(s, Eval(e), q, q);
    PlacesApart(u, scope, s.starts, t.marks, q);
    GrowsStarts(s, u, t);
  }

  lemma AllocatedThere(s: Lowering, scope: Scope, v: Vla, next: Point)
    requires Inv(s, scope) && Tracked(s) && s.open && v !in s.seen && s.place.At? && Happens(s.place.point, Allocated(v), next)
    ensures s.current < |s.blocks| == |s.marks|
    ensures var t := Noted(s, Alloc(v), At(next), At(next)).(stack := s.stack + [v], seen := s.seen + {v}, done := s.done + {v});
      Inv(t, scope + [v]) && Tracked(t) && Passes(s, t, {v})
  {
    hide Inv, Tracked, Linked, Grows, Happens;
    ArrayAllocated(s, scope, v);
    AllocLinks(v, s.place.point, next, s.spots);
    InstrLinked(s, Alloc(v), At(next));
    var n := Noted(s, Alloc(v), At(next), At(next));
    var u := Emitted(s, [Alloc(v)]).(stack := s.stack + [v], seen := s.seen + {v}, done := s.done + {v});
    ArraysApart(n, u.stack, u.seen, u.done);
    PlacesApart(u, scope + [v], s.starts, n.marks, At(next));
    GrowsStarts(s, u, n.(stack := u.stack, seen := u.seen, done := u.done));
  }

  lemma BlockFinished(s: Lowering, scope: Scope, depth: nat, last: Instr)
    requires Inv(s, scope) && Tracked(s) && s.open && depth <= |s.stack| && Expected(s, scope, depth, last)
    requires Ends(last, s.place, s.starts, s.spots)
    ensures Terminator(last) && s.current < |s.blocks|
  {
    hide Inv, Tracked, Ends;
    InvShaped(s, scope);
    EndsTerminates(last, s.place, s.starts, s.spots);
  }

  lemma EndThere(s: Lowering, last: Instr)
    requires Tracked(s) && s.open && Ends(last, s.place, s.starts, s.spots)
    ensures s.current < |s.blocks| && Tracked(Finished(s, last))
  {
    hide Tracked, Ends;
    EndsTerminates(last, s.place, s.starts, s.spots);
    EndAdded(s, last);
  }

  lemma EndedSame(s: Lowering, cleaned: Lowering, scope: Scope, depth: nat, last: Instr)
    requires Inv(s, scope) && s.open && depth <= |s.stack| && Expected(s, scope, depth, last) && s.current < |s.blocks|
    requires cleaned == Emitted(s, Frees(s.stack[depth..])).(marks := cleaned.marks)
    ensures var t := Finished(cleaned, last);
      && Inv(t, scope) && Passes(s, t, {})
      && Appended(s.blocks, t.blocks, s.current, Frees(s.stack[depth..]) + [last]) && |t.blocks| == |s.blocks|
  {
    hide Inv, Grows, Expected, Frees;
    var code, gone := s.blocks[s.current], Frees(s.stack[depth..]);
    BlockEnded(s, scope, depth, last);
    assert code + (gone + [last]) == (code + gone) + [last];
    var u, t := Ended(s, depth, last), Finished(cleaned, last);
    assert t == Renamed(u, t.starts, t.marks, t.place);
    PlacesApart(u, scope, t.starts, t.marks, t.place);
    GrowsStarts(s, u, t);
  }

  // ---------------------------------------------------------------- code added piece by piece

  lemma AppendedTwice(a: seq<seq<Instr>>, b: seq<seq<Instr>>, c: seq<seq<Instr>>, n: nat, x: seq<Instr>, y: seq<Instr>)
    requires Appended(a, b, n, x) && Appended(b, c, n, y)
    ensures Appended(a, c, n, x + y)
  {
    assert a[n] + (x + y) == (a[n] + x) + y;
  }

  lemma NoneAllocated(blocks: seq<seq<Instr>>, n: nat, arrays: Scope, scope: Scope)
    requires n < |blocks|
    ensures Appended(blocks, blocks, n, Allocs(arrays[..0])) && Elements(arrays[..0]) == {}
    ensures scope + arrays[..0] == scope && arrays[0..] == arrays
  {
    assert blocks[n] + Allocs(arrays[..0]) == blocks[n];
  }

  lemma OneAllocated(a: seq<seq<Instr>>, b: seq<seq<Instr>>, c: seq<seq<Instr>>, n: nat, arrays: Scope, i: nat, scope: Scope)
    requires i < |arrays| && Appended(a, b, n, Allocs(arrays[..i])) && Appended(b, c, n, [Alloc(arrays[i])])
    ensures Appended(a, c, n, Allocs(arrays[..i + 1]))
    ensures scope + arrays[..i + 1] == scope + arrays[..i] + [arrays[i]]
  {
    AllocsStep(a[n], arrays, i);
  }

  lemma AllAllocated(arrays: Scope)
    ensures arrays[..|arrays|] == arrays && arrays[|arrays|..] == []
  {
  }

  /** What the simple statements leave and emit. */
  lemma Plainly(s: Stmt, scope: Scope, v: Lowering)
    ensures !s.Declare? && !s.For? && !s.Case? && !s.Default? && !s.Label? ==> After(s, scope) == scope
    ensures s.Expr? || s.ReturnStmt? || s.Goto? || s.Break? || s.Continue? ==> Declared(s) == {}
    ensures s.Declare? ==> DirectCode(s, v) == Allocs(s.arrays)
    ensures s.Expr? ==> DirectCode(s, v) == [Eval(s.expr)]
    ensures s.ReturnStmt? ==> DirectCode(s, v) == Evals(s.result) + Frees(v.stack) + [Instr.Return]
  {
  }

  lemma GotoScoped(name: string, scope: Scope, inside: Option<Scope>, table: map<string, Scope>, known: set<string>)
    requires WellScoped(Goto(name), scope, inside, table, known)
    ensures name in table ==> table[name] <= scope && name in known
  {
  }

  lemma ForParts(s: Stmt, scope: Scope, inside: Option<Scope>, table: map<string, Scope>, known: set<string>)
    requires s.For? && WellScoped(s, scope, inside, table, known) && Distinct(s)
    ensures WellScoped(s.init, scope, inside, table, known) && Distinct(s.init) && Distinct(s.body)
    ensures WellScoped(s.body, After(s.init, scope), inside, table, known) && Steady(s.body) && After(s, scope) == After(s.init, scope)
    ensures Declared(s) == Declared(s.init) + Declared(s.body) && Declared(s.init) !! Declared(s.body)
  {
  }

  lemma IfAsks(s: Stmt, k: Kont)
    requires s.If?
    ensures Asks(Enter(s, k)) == Some(s.condition)
  {
  }

  lemma DirectDeclare(s: Stmt, v: Lowering)
    ensures s.Declare? ==> DirectCode(s, v) == Allocs(s.arrays)
  {
  }
}
