/** Which point of the program each place in the code stands for. */
module VlaPlaces {
  import opened Options
  import opened VlaCode
  import opened VlaProgram
  import opened VlaMeaning

  /** A point; a point whose expression was just evaluated; or a switch whose selector was just evaluated and still is to
      be compared with these cases. */
  datatype Place = At(point: Point) | Asked(point: Point) | Selecting(cases: map<int, Point>, otherwise: Point)

  /** The point that a place stands for when this was evaluated last. */
  function Stands(q: Place, value: int): Point {
    match q
    case At(p) => p
    case Asked(p) => if Asks(p).Some? then Answer(p, value) else p
    case Selecting(cases, otherwise) => if value in cases then cases[value] else otherwise
  }

  /** The place behind an evaluation. */
  function Heard(p: Point): Place
    requires Asks(p).Some?
  {
    if p.Enter? && p.stmt.Switch? then
      var picks := PicksOf(p.stmt.body, Leave(p.after));
      Selecting(picks.cases, if picks.default.Some? then picks.default.value else Resume(p.after))
    else if Decides(p) then Asked(p)
    else At(Answer(p, 0))
  }

  lemma HeardStands(p: Point, value: int)
    requires Asks(p).Some?
    ensures Stands(Heard(p), value) == Answer(p, value)
  {
  }

  /** A condition only tells zero from everything else. */
  lemma Decided(p: Point, value: int)
    requires Asks(p).Some? && Decides(p)
    ensures Answer(p, value) == if value != 0 then Answer(p, 1) else Answer(p, 0)
  {
  }

  // ---------------------------------------------------------------- silent steps

  function Glide(p: Point, n: nat, spots: map<string, Point>): Option<Point>
    decreases n
  {
    if n == 0 then Some(p)
    else
      var q := Silent(p, spots);
      if q.Some? then Glide(q.value, n - 1, spots) else None
  }

  /** Some silent steps lead from one point to the other. */
  ghost predicate Slides(p: Point, q: Point, spots: map<string, Point>) {
    exists n: nat :: Glide(p, n, spots) == Some(q)
  }

  /** At least one does. */
  ghost predicate Advances(p: Point, q: Point, spots: map<string, Point>) {
    Silent(p, spots).Some? && Slides(Silent(p, spots).value, q, spots)
  }

  lemma {:induction false} GlideFurther(p: Point, n: nat, q: Point, m: nat, spots: map<string, Point>)
    requires Glide(p, n, spots) == Some(q)
    ensures Glide(p, n + m, spots) == Glide(q, m, spots)
    decreases n
  {
    if n > 0 {
      GlideFurther(Silent(p, spots).value, n - 1, q, m, spots);
    }
  }

  lemma SlidesSelf(p: Point, spots: map<string, Point>)
    ensures Slides(p, p, spots)
  {
    assert Glide(p, 0, spots) == Some(p);
  }

  lemma SlidesOne(p: Point, spots: map<string, Point>)
    requires Silent(p, spots).Some?
    ensures Slides(p, Silent(p, spots).value, spots) && Advances(p, Silent(p, spots).value, spots)
  {
    var q := Silent(p, spots).value;
    assert Glide(q, 0, spots) == Some(q);
    assert Glide(p, 1, spots) == Some(q);
  }

  lemma SlidesTrans(p: Point, q: Point, r: Point, spots: map<string, Point>)
    requires Slides(p, q, spots) && Slides(q, r, spots)
    ensures Slides(p, r, spots)
  {
    var n: nat :| Glide(p, n, spots) == Some(q);
    var m: nat :| Glide(q, m, spots) == Some(r);
    GlideFurther(p, n, q, m, spots);
  }

  lemma AdvancesLater(p: Point, q: Point, r: Point, spots: map<string, Point>)
    requires Slides(p, q, spots) && Advances(q, r, spots)
    ensures Advances(p, r, spots)
  {
    var n: nat :| Glide(p, n, spots) == Some(q);
    if n > 0 {
      var next := Silent(p, spots).value;
      assert Glide(next, n - 1, spots) == Some(q);
      SlidesOne(q, spots);
      SlidesTrans(next, q, Silent(q, spots).value, spots);
      SlidesTrans(next, Silent(q, spots).value, r, spots);
    }
  }

  // ---------------------------------------------------------------- what one instruction does

  /** An instruction that does not end its block takes one place to the other. */
  ghost predicate Linked(i: Instr, p: Place, q: Place, spots: map<string, Point>) {
    match i
    case Alloc(v) =>
      p.At? && q.At? && exists b :: Slides(p.point, b, spots) && Happens(b, Allocated(v), q.point)
    case Free(_) => q == p
    case Eval(e) =>
      p.At? && exists b :: Slides(p.point, b, spots) && Asks(b) == Some(e) && q == Heard(b)
    case _ => false
  }

  /** A block ends where the program goes on at the start of the next one, having made a step. */
  ghost predicate Ends(i: Instr, p: Place, starts: seq<Place>, spots: map<string, Point>) {
    match i
    case Jump(t) =>
      && t < |starts| && starts[t].At?
      && (if p.At? then Advances(p.point, starts[t].point, spots)
          else p.Selecting? && p.cases == map[] && starts[t].point == p.otherwise)
    case Branch(t, u) =>
      && t < |starts| && u < |starts| && p.Asked? && Asks(p.point).Some? && Decides(p.point)
      && starts[t] == At(Answer(p.point, 1)) && starts[u] == At(Answer(p.point, 0))
    case Match(v, t, u) =>
      && t < |starts| && u < |starts| && p.Selecting? && v in p.cases
      && starts[t] == At(p.cases[v]) && starts[u] == Selecting(p.cases - {v}, p.otherwise)
    case Return => p.At? && exists q :: Slides(p.point, q, spots) && StatusOf(q) == Returned
    case Fall => p.At? && exists q :: Slides(p.point, q, spots) && StatusOf(q) == Fell
    case _ => false
  }

  ghost predicate InstrTracked(code: seq<Instr>, marks: seq<Place>, i: nat, starts: seq<Place>, spots: map<string, Point>)
    requires i < |code|
  {
    && i < |marks|
    && if Terminator(code[i]) then i == |code| - 1 && Ends(code[i], marks[i], starts, spots)
       else i + 1 < |marks| && Linked(code[i], marks[i], marks[i + 1], spots)
  }

  /** Every instruction of a block does what the program does between the places in front of it and behind it. */
  ghost predicate BlockTracked(code: seq<Instr>, marks: seq<Place>, starts: seq<Place>, spots: map<string, Point>) {
    forall i :: 0 <= i < |code| ==> InstrTracked(code, marks, i, starts, spots)
  }

  /** The code does what the body does: it starts where the body starts, and every block is tracked. */
  ghost predicate Follows(blocks: seq<seq<Instr>>, marks: seq<seq<Place>>, starts: seq<Place>, body: seq<Stmt>) {
    && |marks| == |starts| == |blocks| > 0 && starts[0] == At(Start(body))
    && forall b :: 0 <= b < |blocks| ==>
         marks[b] != [] && marks[b][0] == starts[b] && BlockTracked(blocks[b], marks[b], starts, Spots(body))
  }

  /** More blocks change nothing for the ones there are. */
  lemma EndsMore(i: Instr, p: Place, starts: seq<Place>, more: seq<Place>, spots: map<string, Point>)
    requires Ends(i, p, starts, spots) && starts <= more
    ensures Ends(i, p, more, spots)
  {
  }

  lemma BlockTrackedMore(code: seq<Instr>, marks: seq<Place>, starts: seq<Place>, more: seq<Place>, spots: map<string, Point>)
    requires BlockTracked(code, marks, starts, spots) && starts <= more
    ensures BlockTracked(code, marks, more, spots)
  {
    hide Ends, Linked;
    forall i | 0 <= i < |code|
      ensures InstrTracked(code, marks, i, more, spots)
    {
      assert InstrTracked(code, marks, i, starts, spots);
      if Terminator(code[i]) {
        EndsMore(code[i], marks[i], starts, more, spots);
      }
    }
  }
}
