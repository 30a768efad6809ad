/** What statement lowering keeps: the compile-time list of dynamic arrays agrees with the stack
    of any run, in every block that a run can enter. */
module VlaInvariant {
  import opened Options
  import opened VlaCode
  import opened VlaProgram
  import opened VlaMeaning
  import opened VlaPlaces

  datatype Target = Target(next: nat, exit: nat, depth: nat)
  datatype Exit = Exit(block: nat, depth: nat)
  datatype Cases = Cases(values: map<int, nat>, default: Option<nat>)

  /** The lowerer's fields, with what the proof remembers: the scope of each block, the arrays
      whose declaration was passed (`seen`) and those not skipped (`done`), whether the current
      block still lacks its end, the scopes of the open switches, the constants of the run, and which point of the
      program each instruction stands for. */
  datatype Lowering = Lowering(
    blocks: seq<seq<Instr>>, current: nat, stack: seq<Vla>,
    labels: map<string, nat>, depths: map<string, nat>,
    loops: seq<Target>, breaks: seq<Exit>, switches: seq<Cases>,
    scopes: seq<Scope>, seen: set<Vla>, done: set<Vla>, open: bool, insides: seq<Scope>,
    table: map<string, Scope>, top: Scope, known: set<string>,
    starts: seq<Place>, marks: seq<seq<Place>>, place: Place, spots: map<string, Point>)

  /** The arrays of a scope whose declaration was not skipped. */
  function Kept(scope: Scope, done: set<Vla>): seq<Vla> {
    if scope == [] then []
    else
      var last := scope[|scope| - 1];
      Kept(scope[..|scope| - 1], done) + if last in done then [last] else []
  }

  lemma {:induction false} KeptClean(scope: Scope, done: set<Vla>)
    requires Clean(scope, done)
    ensures Kept(scope, done) == scope
  {
    if scope != [] {
      KeptClean(scope[..|scope| - 1], done);
    }
  }

  lemma {:induction false} KeptPrefix(part: Scope, scope: Scope, done: set<Vla>)
    requires part <= scope
    ensures Kept(part, done) <= Kept(scope, done)
    decreases |scope|
  {
    if |part| < |scope| {
      KeptPrefix(part, scope[..|scope| - 1], done);
    } else {
      assert part == scope;
    }
  }

  lemma {:induction false} KeptSame(scope: Scope, done: set<Vla>, done': set<Vla>)
    requires forall v :: v in scope ==> (v in done <==> v in done')
    ensures Kept(scope, done) == Kept(scope, done')
  {
    if scope != [] {
      KeptSame(scope[..|scope| - 1], done, done');
    }
  }

  lemma {:induction false} KeptAppend(scope: Scope, more: Scope, done: set<Vla>)
    ensures Kept(scope + more, done) == Kept(scope, done) + Kept(more, done)
    decreases |more|
  {
    if more == [] {
      assert scope + more == scope;
    } else {
      assert (scope + more)[..|scope + more| - 1] == scope + more[..|more| - 1];
      KeptAppend(scope, more[..|more| - 1], done);
    }
  }

  // ---------------------------------------------------------------- the invariant, part by part

  ghost predicate Shaped(s: Lowering) {
    && |s.scopes| == |s.blocks| > 0 && s.current < |s.blocks| && s.scopes[0] == [] && |s.insides| == |s.switches|
  }

  ghost predicate Passed(s: Lowering, scope: Scope) {
    && s.done <= s.seen && Elements(scope) <= s.seen
    && forall b :: 0 <= b < |s.scopes| ==> Elements(s.scopes[b]) <= s.seen
  }

  ghost predicate BlockKept(s: Lowering, b: nat)
    requires b < |s.blocks| == |s.scopes|
  {
    s.blocks[b] == [] || (Closed(s.blocks[b]) && Sound(s.blocks[b], s.scopes[b], s.scopes, s.done, s.top))
  }

  ghost predicate BlocksKept(s: Lowering)
    requires |s.scopes| == |s.blocks|
  {
    forall b :: 0 <= b < |s.blocks| && (b != s.current || !s.open) ==> BlockKept(s, b)
  }

  /** Run from the start of the current block, the arrays are those of the list. */
  ghost predicate Aligned(s: Lowering, scope: Scope)
    requires s.current < |s.blocks| == |s.scopes|
  {
    s.open && Clean(s.scopes[s.current], s.done) ==>
      Clean(scope, s.done) && Exec(s.blocks[s.current], s.scopes[s.current]) == Stack(s.stack)
  }

  ghost predicate LabelsKept(s: Lowering) {
    forall name :: name in s.labels ==>
      && s.labels[name] < |s.scopes| && name in s.table && s.scopes[s.labels[name]] == s.table[name]
  }

  /** The recorded depth is that of the label's scope, unless a run cannot get there. */
  ghost predicate DepthKept(s: Lowering, name: string)
    requires name in s.table
  {
    && name in s.depths
    && (s.depths[name] == |s.table[name]| || (Elements(s.table[name]) <= s.seen && !Clean(s.table[name], s.done)))
  }

  ghost predicate DepthsKept(s: Lowering) {
    s.depths.Keys <= s.table.Keys && forall name :: name in s.table && name in s.known ==> DepthKept(s, name)
  }

  ghost predicate ExitKept(s: Lowering, scope: Scope, block: nat, depth: nat) {
    block < |s.scopes| && s.scopes[block] <= scope && depth == |Kept(s.scopes[block], s.done)|
  }

  ghost predicate TargetsKept(s: Lowering, scope: Scope) {
    && (forall k :: 0 <= k < |s.loops| ==>
          ExitKept(s, scope, s.loops[k].next, s.loops[k].depth) && ExitKept(s, scope, s.loops[k].exit, s.loops[k].depth))
    && forall k :: 0 <= k < |s.breaks| ==> ExitKept(s, scope, s.breaks[k].block, s.breaks[k].depth)
  }

  ghost predicate CasesKept(s: Lowering, c: Cases, inside: Scope) {
    && (forall v :: v in c.values ==> c.values[v] < |s.scopes| && s.scopes[c.values[v]] == inside)
    && (c.default.Some? ==> c.default.value < |s.scopes| && s.scopes[c.default.value] == inside)
  }

  ghost predicate SwitchesKept(s: Lowering)
    requires |s.insides| == |s.switches|
  {
    forall k :: 0 <= k < |s.switches| ==> CasesKept(s, s.switches[k], s.insides[k])
  }

  ghost predicate Inv(s: Lowering, scope: Scope) {
    && Shaped(s) && Passed(s, scope) && s.stack == Kept(scope, s.done)
    && BlocksKept(s) && Aligned(s, scope)
    && LabelsKept(s) && DepthsKept(s) && TargetsKept(s, scope) && SwitchesKept(s)
  }

  /** How one piece of lowering changes the state: blocks and labels are added, arrays are passed. */
  ghost predicate Grows(s: Lowering, t: Lowering) {
    && s.scopes <= t.scopes && s.seen <= t.seen && s.done <= t.done && (t.done - s.done) !! s.seen
    && t.loops == s.loops && t.breaks == s.breaks && t.switches == s.switches && t.insides == s.insides
    && t.table == s.table && t.top == s.top && t.known == s.known
    && s.starts <= t.starts && t.spots == s.spots
  }

  lemma GrowsTrans(s: Lowering, t: Lowering, u: Lowering)
    requires Grows(s, t) && Grows(t, u)
    ensures Grows(s, u)
  {
  }

  /** A scope already passed keeps its arrays. */
  lemma KeptGrows(s: Lowering, t: Lowering, scope: Scope)
    requires Grows(s, t) && Elements(scope) <= s.seen
    ensures Kept(scope, s.done) == Kept(scope, t.done)
    ensures Clean(scope, s.done) <==> Clean(scope, t.done)
  {
    forall v | v in scope
      ensures v in s.done <==> v in t.done
    {
      assert v in Elements(scope);
    }
    KeptSame(scope, s.done, t.done);
  }

  /** Targets stay valid for the scope they were entered with. */
  lemma TargetsGrow(s: Lowering, t: Lowering, scope: Scope)
    requires Shaped(s) && Passed(s, scope) && TargetsKept(s, scope) && Grows(s, t)
    ensures TargetsKept(t, scope)
  {
    forall b | 0 <= b < |s.scopes|
      ensures Kept(s.scopes[b], s.done) == Kept(s.scopes[b], t.done) && t.scopes[b] == s.scopes[b]
    {
      KeptGrows(s, t, s.scopes[b]);
    }
    forall k | 0 <= k < |s.loops|
      ensures ExitKept(t, scope, s.loops[k].next, s.loops[k].depth) && ExitKept(t, scope, s.loops[k].exit, s.loops[k].depth)
    {
    }
  }

  // ---------------------------------------------------------------- blocks

  function WithBlock(s: Lowering, scope: Scope): Lowering {
    s.(blocks := s.blocks + [[]], scopes := s.scopes + [scope])
  }

  /** A finished block does not notice new blocks. */
  lemma ScopesExtended(s: Lowering, t: Lowering, b: nat)
    requires Shaped(s) && |t.blocks| == |t.scopes| && s.scopes <= t.scopes && t.done == s.done && t.top == s.top
    requires b < |s.blocks| && BlockKept(s, b) && t.blocks[b] == s.blocks[b]
    ensures BlockKept(t, b)
  {
    hide Exec;
  }

  lemma BlockAdded(s: Lowering, scope: Scope, added: Scope)
    requires Inv(s, scope) && Elements(added) <= s.seen
    ensures Inv(WithBlock(s, added), scope) && Grows(s, WithBlock(s, added))
  {
    hide Exec, Sound, Kept, Clean;
    var t := WithBlock(s, added);
    forall b | 0 <= b < |t.blocks| && (b != t.current || !t.open)
      ensures BlockKept(t, b)
    {
      if b < |s.blocks| {
        ScopesExtended(s, t, b);
      }
    }
    TargetsGrow(s, t, scope);
  }

  /** Moving on to an empty block whose scope this is. */
  lemma BlockEntered(s: Lowering, scope: Scope, b: nat)
    requires Inv(s, scope) && !s.open && b < |s.blocks| && s.blocks[b] == [] && s.scopes[b] == scope
    ensures Inv(s.(current := b, open := true), scope)
  {
    var t := s.(current := b, open := true);
    assert forall c :: 0 <= c < |s.blocks| && c != b ==> BlockKept(s, c) && (BlockKept(s, c) <==> BlockKept(t, c));
    if Clean(scope, s.done) {
      KeptClean(scope, s.done);
    }
  }

  /** The current block with code added. */
  function Emitted(s: Lowering, code: seq<Instr>): Lowering
    requires s.current < |s.blocks|
  {
    s.(blocks := s.blocks[s.current := s.blocks[s.current] + code])
  }

  function Ended(s: Lowering, depth: nat, last: Instr): Lowering
    requires s.current < |s.blocks| && depth <= |s.stack|
  {
    Emitted(s, Frees(s.stack[depth..]) + [last]).(open := false)
  }

  /** The jump's target expects what is left after releasing down to a depth. */
  ghost predicate Expected(s: Lowering, scope: Scope, depth: nat, last: Instr)
    requires depth <= |s.stack|
  {
    Terminator(last) && (Clean(scope, s.done) ==> EndsWell(last, s.stack[..depth], s.scopes, s.top))
  }

  /** Releasing down to a depth and jumping closes the block properly. */
  lemma BlockEnded(s: Lowering, scope: Scope, depth: nat, last: Instr)
    requires Inv(s, scope) && s.open && depth <= |s.stack| && Expected(s, scope, depth, last)
    ensures Inv(Ended(s, depth, last), scope) && Grows(s, Ended(s, depth, last))
  {
    hide Kept, Exec, EndsWell, Clean;
    var t := Ended(s, depth, last);
    var code := s.blocks[s.current];
    var released := code + Frees(s.stack[depth..]);
    assert t.blocks[s.current] == released + [last] && (released + [last])[..|released|] == released;
    if Clean(s.scopes[s.current], s.done) {
      assert s.stack == s.stack[..depth] + s.stack[depth..];
      ExecFrees(code, s.scopes[s.current], s.stack[..depth], s.stack[depth..]);
      KeptClean(scope, s.done);
      CleanPart(scope, s.done, depth);
    }
    forall b | 0 <= b < |t.blocks|
      ensures BlockKept(t, b)
    {
      assert b != s.current ==> BlockKept(s, b);
    }
    TargetsGrow(s, t, scope);
  }

  lemma CleanPart(scope: Scope, done: set<Vla>, depth: nat)
    requires Clean(scope, done) && depth <= |scope|
    ensures Clean(scope[..depth], done)
  {
  }

  /** A jump within one scope. */
  lemma StaysInScope(s: Lowering, scope: Scope, last: Instr)
    requires Inv(s, scope)
    requires match last
      case Jump(t) => t < |s.scopes| && s.scopes[t] == scope
      case Branch(t, u) => t < |s.scopes| && u < |s.scopes| && s.scopes[t] == scope && s.scopes[u] == scope
      case Match(_, t, u) => t < |s.scopes| && u < |s.scopes| && s.scopes[t] == scope && s.scopes[u] == scope
      case _ => false
    ensures Expected(s, scope, |s.stack|, last)
  {
    if Clean(scope, s.done) {
      KeptClean(scope, s.done);
      assert s.stack[..|s.stack|] == scope;
    }
  }

  /** A jump out to the scope of a target. */
  lemma LeavesTo(s: Lowering, scope: Scope, block: nat, depth: nat)
    requires Inv(s, scope) && ExitKept(s, scope, block, depth)
    ensures depth <= |s.stack| && Expected(s, scope, depth, Jump(block))
  {
    hide BlocksKept, Aligned, LabelsKept, DepthsKept, TargetsKept, SwitchesKept, Passed, Kept, Exec;
    var part := s.scopes[block];
    KeptPrefix(part, scope, s.done);
    if Clean(scope, s.done) {
      KeptClean(scope, s.done);
      assert part == scope[..|part|];
      CleanPart(scope, s.done, |part|);
      KeptClean(part, s.done);
    }
  }

  /** A goto leaves at most the scopes its label is not in. */
  lemma GoesTo(s: Lowering, scope: Scope, name: string, block: nat)
    requires Inv(s, scope) && name in s.table && name in s.known && s.table[name] <= scope
    requires block < |s.scopes| && s.scopes[block] == s.table[name]
    requires s.depths[name] <= |s.stack|
    ensures Expected(s, scope, s.depths[name], Jump(block))
  {
    hide BlocksKept, Aligned, LabelsKept, TargetsKept, SwitchesKept, Passed;
    assert DepthKept(s, name);
    if Clean(scope, s.done) {
      KeptClean(scope, s.done);
      assert forall v :: v in s.table[name] ==> v in scope;
    }
  }

  lemma ReturnsEmpty(s: Lowering, scope: Scope)
    ensures Expected(s, scope, 0, Instr.Return)
  {
  }

  lemma FallsWithTop(s: Lowering)
    requires Inv(s, s.top)
    ensures Expected(s, s.top, |s.stack|, Fall)
  {
    hide BlocksKept, Aligned, LabelsKept, TargetsKept, SwitchesKept, Passed;
    if Clean(s.top, s.done) {
      KeptClean(s.top, s.done);
      assert s.stack[..|s.stack|] == s.top;
    }
  }

  // ---------------------------------------------------------------- arrays

  /** A finished block does not notice arrays that were not passed before. */
  lemma ArraysPassed(s: Lowering, t: Lowering, b: nat)
    requires Shaped(s) && Grows(s, t) && b < |s.blocks| == |t.blocks| && t.scopes == s.scopes
    requires Elements(s.scopes[b]) <= s.seen && BlockKept(s, b) && t.blocks[b] == s.blocks[b]
    ensures BlockKept(t, b)
  {
    hide Exec;
    KeptGrows(s, t, s.scopes[b]);
  }

  lemma DepthsGrow(s: Lowering, t: Lowering)
    requires DepthsKept(s) && Grows(s, t) && t.depths == s.depths
    ensures DepthsKept(t)
  {
    hide Kept;
    forall name | name in t.table && name in t.known
      ensures DepthKept(t, name)
    {
      assert DepthKept(s, name);
      if Elements(s.table[name]) <= s.seen {
        KeptGrows(s, t, s.table[name]);
      }
    }
  }

  lemma ArrayAllocated(s: Lowering, scope: Scope, v: Vla)
    requires Inv(s, scope) && s.open && v !in s.seen
    ensures var t := Emitted(s, [Alloc(v)]).(stack := s.stack + [v], seen := s.seen + {v}, done := s.done + {v});
      Inv(t, scope + [v]) && Grows(s, t)
  {
    hide Kept, Exec, Sound;
    var t := Emitted(s, [Alloc(v)]).(stack := s.stack + [v], seen := s.seen + {v}, done := s.done + {v});
    KeptGrows(s, t, scope);
    KeptSnoc(scope, v, t.done);
    forall b | 0 <= b < |t.blocks| && b != t.current
      ensures BlockKept(t, b)
    {
      ArraysPassed(s, t, b);
    }
    ExecSnoc(s.blocks[s.current], Alloc(v), s.scopes[s.current]);
    KeptGrows(s, t, s.scopes[s.current]);
    DepthsGrow(s, t);
    TargetsGrow(s, t, scope);
    TargetsWider(t, scope, scope + [v]);
  }

  /** An evaluation leaves the arrays alone. */
  lemma Evaluating(s: Lowering, scope: Scope, e: ExprId)
    requires Inv(s, scope) && s.open
    ensures Inv(Emitted(s, [Eval(e)]), scope) && Grows(s, Emitted(s, [Eval(e)]))
  {
    hide Kept, Exec, Sound;
    var t := Emitted(s, [Eval(e)]);
    forall b | 0 <= b < |t.blocks| && b != t.current
      ensures BlockKept(t, b)
    {
      ArraysPassed(s, t, b);
    }
    ExecSnoc(s.blocks[s.current], Eval(e), s.scopes[s.current]);
    DepthsGrow(s, t);
    TargetsGrow(s, t, scope);
  }

  lemma KeptSnoc(scope: Scope, v: Vla, done: set<Vla>)
    ensures Kept(scope + [v], done) == Kept(scope, done) + if v in done then [v] else []
  {
    assert (scope + [v])[..|scope|] == scope;
  }

  lemma TargetsWider(s: Lowering, scope: Scope, wider: Scope)
    requires TargetsKept(s, scope) && scope <= wider
    ensures TargetsKept(s, wider)
  {
    hide Kept;
  }

  /** Passing declarations that are not reached. */
  lemma ArraysSkipped(s: Lowering, scope: Scope, more: set<Vla>)
    requires Inv(s, scope) && more !! s.seen
    ensures Inv(s.(seen := s.seen + more), scope) && Grows(s, s.(seen := s.seen + more))
  {
    hide Kept, Exec;
    var t := s.(seen := s.seen + more);
    forall b | 0 <= b < |t.blocks| && (b != t.current || !t.open)
      ensures BlockKept(t, b)
    {
      assert BlockKept(s, b);
    }
    DepthsGrow(s, t);
    TargetsGrow(s, t, scope);
  }

  lemma ScopeSkipped(s: Lowering, scope: Scope, arrays: Scope)
    requires Inv(s, scope) && !s.open && Elements(arrays) <= s.seen && Elements(arrays) !! s.done
    ensures Inv(s, scope + arrays)
  {
    hide BlocksKept, LabelsKept, DepthsKept, SwitchesKept, Exec;
    KeptAppend(scope, arrays, s.done);
    NoneKept(arrays, s.done);
    TargetsWider(s, scope, scope + arrays);
    forall v | v in Elements(scope + arrays)
      ensures v in s.seen
    {
      assert v in Elements(scope) || v in Elements(arrays);
    }
  }

  lemma {:induction false} NoneKept(arrays: Scope, done: set<Vla>)
    requires Elements(arrays) !! done
    ensures Kept(arrays, done) == []
  {
    if arrays != [] {
      var front, last := arrays[..|arrays| - 1], arrays[|arrays| - 1];
      assert last in Elements(arrays) && last !in done;
      assert Elements(front) <= Elements(arrays);
      NoneKept(front, done);
    }
  }

  /** Leaving a scope: the list is cut back, with releases where the end is reached. */
  function Left(s: Lowering, depth: nat): Lowering
    requires s.current < |s.blocks| && depth <= |s.stack|
  {
    (if s.open then Emitted(s, Frees(s.stack[depth..])) else s).(stack := s.stack[..depth])
  }

  lemma ScopeLeft(s: Lowering, scope: Scope, outer: Scope, depth: nat)
    requires Inv(s, scope) && outer <= scope && TargetsKept(s, outer) && depth == |Kept(outer, s.done)|
    ensures depth <= |s.stack| && Inv(Left(s, depth), outer) && Grows(s, Left(s, depth))
  {
    hide Kept, Exec, Sound;
    KeptPrefix(outer, scope, s.done);
    var t := Left(s, depth);
    forall b | 0 <= b < |t.blocks| && (b != t.current || !t.open)
      ensures BlockKept(t, b)
    {
      assert BlockKept(s, b);
    }
    if s.open {
      assert s.stack == s.stack[..depth] + s.stack[depth..];
      if Clean(s.scopes[s.current], s.done) {
        ExecFrees(s.blocks[s.current], s.scopes[s.current], s.stack[..depth], s.stack[depth..]);
        assert forall v :: v in outer ==> v in scope;
      }
    }
    assert Elements(outer) <= Elements(scope) by {
      assert forall v :: v in outer ==> v in scope;
    }
    TargetsGrow(s, t, outer) by {
      assert Passed(s, outer);
    }
  }

  // ---------------------------------------------------------------- labels and targets

  lemma LabelAdded(s: Lowering, scope: Scope, name: string, block: nat)
    requires Inv(s, scope) && name in s.table && block < |s.scopes| && s.scopes[block] == s.table[name]
    ensures Inv(s.(labels := s.labels[name := block]), scope)
    ensures Grows(s, s.(labels := s.labels[name := block]))
  {
    hide Kept, Exec, Sound;
    var t := s.(labels := s.labels[name := block]);
    forall b | 0 <= b < |t.blocks| && (b != t.current || !t.open)
      ensures BlockKept(t, b)
    {
      assert BlockKept(s, b);
    }
    DepthsGrow(s, t);
  }

  lemma DepthRecorded(s: Lowering, scope: Scope, name: string)
    requires Inv(s, scope) && name in s.table && s.table[name] == scope
    ensures Inv(s.(depths := s.depths[name := |s.stack|]), scope)
    ensures Grows(s, s.(depths := s.depths[name := |s.stack|]))
  {
    hide Exec, Sound;
    var t := s.(depths := s.depths[name := |s.stack|]);
    forall b | 0 <= b < |t.blocks| && (b != t.current || !t.open)
      ensures BlockKept(t, b)
    {
      assert BlockKept(s, b);
    }
    forall other | other in t.table && other in t.known
      ensures DepthKept(t, other)
    {
      assert DepthKept(s, other);
      if other == name && Clean(scope, s.done) {
        KeptClean(scope, s.done);
      }
    }
  }

  /** The same state with other targets. */
  function Aimed(s: Lowering, loops: seq<Target>, breaks: seq<Exit>, switches: seq<Cases>, insides: seq<Scope>): Lowering {
    s.(loops := loops, breaks := breaks, switches := switches, insides := insides)
  }

  lemma TargetsReplaced(s: Lowering, scope: Scope, loops: seq<Target>, breaks: seq<Exit>, switches: seq<Cases>,
                        insides: seq<Scope>)
    requires Inv(s, scope) && |insides| == |switches|
    requires TargetsKept(Aimed(s, loops, breaks, switches, insides), scope)
    requires SwitchesKept(Aimed(s, loops, breaks, switches, insides))
    ensures Inv(Aimed(s, loops, breaks, switches, insides), scope)
  {
    hide Kept, Exec, Sound, TargetsKept, SwitchesKept;
    var t := Aimed(s, loops, breaks, switches, insides);
    forall b | 0 <= b < |t.blocks| && (b != t.current || !t.open)
      ensures BlockKept(t, b)
    {
      assert BlockKept(s, b);
    }
    assert forall name :: name in t.table && name in t.known ==> DepthKept(s, name) && (DepthKept(s, name) <==> DepthKept(t, name));
  }

  /** Entering a loop. */
  function InLoop(s: Lowering, next: nat, exit: nat): Lowering {
    s.(loops := s.loops + [Target(next, exit, |s.stack|)], breaks := s.breaks + [Exit(exit, |s.stack|)])
  }

  lemma LoopEntered(s: Lowering, scope: Scope, next: nat, exit: nat)
    requires Inv(s, scope) && next < |s.scopes| && exit < |s.scopes|
    requires s.scopes[next] == scope && s.scopes[exit] == scope
    ensures Inv(InLoop(s, next, exit), scope)
  {
    hide BlocksKept, Aligned, LabelsKept, DepthsKept, Passed, CasesKept, Kept;
    var t := InLoop(s, next, exit);
    assert t == Aimed(s, t.loops, t.breaks, s.switches, s.insides);
    assert SwitchesKept(t) by {
      assert forall k :: 0 <= k < |s.switches| ==> CasesKept(s, s.switches[k], s.insides[k]);
      assert forall k :: 0 <= k < |s.switches| ==> CasesKept(t, s.switches[k], s.insides[k]) by {
        CasesFrame(s, t);
      }
    }
    TargetsReplaced(s, scope, t.loops, t.breaks, s.switches, s.insides);
  }

  lemma CasesFrame(s: Lowering, t: Lowering)
    requires s.scopes <= t.scopes
    ensures forall c, inside :: CasesKept(s, c, inside) ==> CasesKept(t, c, inside)
  {
  }

  /** Entering a switch. */
  function InSwitch(s: Lowering, cases: Cases, exit: nat, scope: Scope): Lowering {
    s.(switches := s.switches + [cases], breaks := s.breaks + [Exit(exit, |s.stack|)], insides := s.insides + [scope])
  }

  lemma SwitchEntered(s: Lowering, scope: Scope, cases: Cases, exit: nat)
    requires Inv(s, scope) && exit < |s.scopes| && s.scopes[exit] == scope && CasesKept(s, cases, scope)
    ensures Inv(InSwitch(s, cases, exit, scope), scope)
  {
    hide BlocksKept, Aligned, LabelsKept, DepthsKept, Passed, CasesKept, Kept;
    var t := InSwitch(s, cases, exit, scope);
    assert t == Aimed(s, s.loops, t.breaks, t.switches, t.insides);
    CasesFrame(s, t);
    assert SwitchesKept(t);
    TargetsReplaced(s, scope, s.loops, t.breaks, t.switches, t.insides);
  }

  /** Leaving the loop or switch entered from s0. */
  lemma TargetsRestored(s0: Lowering, aimed: Lowering, s: Lowering, scope: Scope)
    requires Inv(s0, scope) && Inv(s, scope) && Grows(aimed, s)
    requires aimed == Aimed(s0, aimed.loops, aimed.breaks, aimed.switches, aimed.insides)
    ensures var t := Aimed(s, s0.loops, s0.breaks, s0.switches, s0.insides);
      Inv(t, scope) && Grows(s0, t)
  {
    hide BlocksKept, Aligned, LabelsKept, DepthsKept, Kept, CasesKept;
    var t := Aimed(s, s0.loops, s0.breaks, s0.switches, s0.insides);
    assert Grows(s0, t);
    TargetsGrow(s0, t, scope);
    CasesFrame(s0, t);
    assert SwitchesKept(t);
    TargetsReplaced(s, scope, s0.loops, s0.breaks, s0.switches, s0.insides);
  }

  /** The state with other places. */
  function Renamed(s: Lowering, starts: seq<Place>, marks: seq<seq<Place>>, place: Place): Lowering {
    s.(starts := starts, marks := marks, place := place)
  }

  /** The places do not matter to the arrays. */
  lemma PlacesApart(s: Lowering, scope: Scope, starts: seq<Place>, marks: seq<seq<Place>>, place: Place)
    requires Inv(s, scope)
    ensures Inv(Renamed(s, starts, marks, place), scope)
  {
    hide Kept, Exec, Sound;
    var t := Renamed(s, starts, marks, place);
    forall b | 0 <= b < |t.blocks| && (b != t.current || !t.open)
      ensures BlockKept(t, b)
    {
      assert BlockKept(s, b);
    }
    assert forall name :: name in t.table && name in t.known ==> DepthKept(s, name) && (DepthKept(s, name) <==> DepthKept(t, name));
    assert forall k :: 0 <= k < |t.switches| ==> CasesKept(s, s.switches[k], s.insides[k]);
  }

  // ---------------------------------------------------------------- parts of the invariant

  lemma InvShaped(s: Lowering, scope: Scope)
    requires Inv(s, scope)
    ensures Shaped(s) && s.done <= s.seen && Elements(scope) <= s.seen && s.stack == Kept(scope, s.done)
  {
  }

  lemma NoFrees()
    ensures Frees([]) == []
  {
  }

  lemma FreesStep(arrays: seq<Vla>)
    requires arrays != []
    ensures Frees(arrays) == [Free(arrays[|arrays| - 1])] + Frees(arrays[..|arrays| - 1])
  {
  }

  lemma OnlyTable(s: Lowering, scope: Scope, name: string)
    requires Inv(s, scope) && name in s.depths
    ensures name in s.table
  {
  }

  lemma BreakKept(s: Lowering, scope: Scope)
    requires Inv(s, scope) && s.breaks != []
    ensures var e := s.breaks[|s.breaks| - 1]; ExitKept(s, scope, e.block, e.depth)
  {
  }

  lemma LoopKept(s: Lowering, scope: Scope)
    requires Inv(s, scope) && s.loops != []
    ensures var t := s.loops[|s.loops| - 1]; ExitKept(s, scope, t.next, t.depth)
  {
  }

  lemma LabelKept(s: Lowering, scope: Scope, name: string)
    requires Inv(s, scope) && name in s.labels
    ensures s.labels[name] < |s.scopes| && name in s.table && s.scopes[s.labels[name]] == s.table[name]
  {
  }

  lemma CaseKept(s: Lowering, scope: Scope)
    requires Inv(s, scope) && s.switches != []
    ensures |s.insides| == |s.switches| && CasesKept(s, s.switches[|s.switches| - 1], s.insides[|s.insides| - 1])
  {
  }

  lemma PrefixPassed(s: Lowering, scope: Scope, part: Scope)
    requires Inv(s, scope) && part <= scope
    ensures Elements(part) <= s.seen
  {
    assert forall v :: v in part ==> v in scope;
    assert Elements(part) <= Elements(scope);
  }

  lemma CompoundLeft(first: Lowering, before: Lowering, scope: Scope)
    requires Inv(first, scope) && Grows(first, before)
    ensures TargetsKept(before, scope) && |first.stack| == |Kept(scope, before.done)|
  {
    hide BlocksKept, Aligned, LabelsKept, DepthsKept, SwitchesKept, Kept;
    TargetsGrow(first, before, scope);
    KeptGrows(first, before, scope);
  }

  /** Code added at the end of one block. */
  ghost predicate Appended(blocks: seq<seq<Instr>>, blocks': seq<seq<Instr>>, b: nat, code: seq<Instr>) {
    b < |blocks| <= |blocks'| && blocks'[b] == blocks[b] + code
  }

  function Allocs(arrays: Scope): (code: seq<Instr>)
    ensures |code| == |arrays|
  {
    seq(|arrays|, i requires 0 <= i < |arrays| => Alloc(arrays[i]))
  }

  lemma AllocsStep(code: seq<Instr>, arrays: Scope, i: nat)
    requires i < |arrays|
    ensures code + Allocs(arrays[..i + 1]) == code + Allocs(arrays[..i]) + [Alloc(arrays[i])]
  {
    assert Allocs(arrays[..i + 1]) == Allocs(arrays[..i]) + [Alloc(arrays[i])];
  }

  /** A body that is one declaration. */
  predicate OneDeclaration(ss: seq<Stmt>) {
    |ss| == 1 && ss[0].Declare?
  }

  lemma OneBlock(blocks: seq<seq<Instr>>, code: seq<Instr>)
    ensures blocks == [code + [Fall]] ==> Complete(blocks) && Closed(blocks[0])
  {
  }

  /** An expression that may be missing. */
  function Evals(e: Option<ExprId>): seq<Instr> {
    if e.Some? then [Eval(e.value)] else []
  }

  /** The code of the statements that need no blocks of their own. */
  function DirectCode(s: Stmt, v: Lowering): seq<Instr> {
    match s
    case Declare(arrays) => Allocs(arrays)
    case ReturnStmt(result) => Evals(result) + Frees(v.stack) + [Instr.Return]
    case Expr(e) => [Eval(e)]
    case Break =>
      if v.breaks == [] then []
      else
        var target := v.breaks[|v.breaks| - 1];
        Frees(v.stack[Least(target.depth, |v.stack|)..]) + [Jump(target.block)]
    case Continue =>
      if v.loops == [] then []
      else
        var target := v.loops[|v.loops| - 1];
        Frees(v.stack[Least(target.depth, |v.stack|)..]) + [Jump(target.next)]
    case _ => []
  }

  function Least(a: nat, b: nat): nat {
    if a < b then a else b
  }

  // ---------------------------------------------------------------- steps

  /** What one piece of lowering may change, and which arrays it passed. */
  ghost predicate Passes(s: Lowering, t: Lowering, arrays: set<Vla>) {
    Grows(s, t) && t.seen == s.seen + arrays
  }

  lemma PassesSelf(s: Lowering)
    ensures Passes(s, s, {})
  {
  }

  lemma PassesTrans(s: Lowering, t: Lowering, u: Lowering, a: set<Vla>, b: set<Vla>)
    requires Passes(s, t, a) && Passes(t, u, b)
    ensures Passes(s, u, a + b)
  {
    GrowsTrans(s, t, u);
  }

  lemma GrowsFrame(s: Lowering, t: Lowering)
    requires Grows(s, t)
    ensures t.loops == s.loops && t.breaks == s.breaks && t.switches == s.switches && t.insides == s.insides
    ensures t.table == s.table && t.top == s.top && t.known == s.known && s.scopes <= t.scopes
    ensures s.starts <= t.starts && t.spots == s.spots
    ensures forall b :: 0 <= b < |s.scopes| ==> b < |t.scopes| && t.scopes[b] == s.scopes[b]
  {
  }

  /** The next array of a declaration was not passed before. */
  lemma NewArray(arrays: Scope, i: nat, seen0: set<Vla>, seen: set<Vla>)
    requires i < |arrays| && Distinct(Declare(arrays)) && Elements(arrays) !! seen0
    requires seen == seen0 + Elements(arrays[..i])
    ensures arrays[i] !in seen && seen + {arrays[i]} == seen0 + Elements(arrays[..i + 1])
  {
    assert arrays[i] in Elements(arrays);
    assert arrays[..i + 1] == arrays[..i] + [arrays[i]];
  }

  lemma NoElements()
    ensures Elements([]) == {}
  {
  }

  lemma NextDeclared(ss: seq<Stmt>, i: nat, seen0: set<Vla>, seen: set<Vla>)
    requires i < |ss| && Distinct(Compound(ss)) && Declared(Compound(ss)) !! seen0
    requires seen == seen0 + DeclaredBy(ss, i)
    ensures Declared(ss[i]) !! seen && Distinct(ss[i])
  {
    DeclaredMember(ss, |ss|);
  }

  // ---------------------------------------------------------------- case blocks

  lemma NoCases(s: Lowering, scope: Scope)
    ensures CasesKept(s, Cases(map[], None), scope)
  {
  }

  lemma CasesStay(s: Lowering, t: Lowering, cases: Cases, scope: Scope)
    requires CasesKept(s, cases, scope) && s.scopes <= t.scopes
    ensures CasesKept(t, cases, scope)
  {
  }

  lemma CaseAdded(s: Lowering, t: Lowering, cases: Cases, scope: Scope, v: int, block: nat)
    requires CasesKept(s, cases, scope) && s.scopes <= t.scopes && block < |t.scopes| && t.scopes[block] == scope
    ensures CasesKept(t, cases.(values := cases.values[v := block]), scope)
  {
  }

  lemma DefaultAdded(s: Lowering, t: Lowering, cases: Cases, scope: Scope, block: nat)
    requires CasesKept(s, cases, scope) && s.scopes <= t.scopes && block < |t.scopes| && t.scopes[block] == scope
    ensures CasesKept(t, cases.(default := Some(block)), scope)
  {
  }

  lemma CaseBlocks(s: Lowering, cases: Cases, scope: Scope)
    requires CasesKept(s, cases, scope)
    ensures forall v :: v in cases.values ==> cases.values[v] < |s.scopes| && s.scopes[cases.values[v]] == scope
    ensures cases.default.Some? ==> cases.default.value < |s.scopes| && s.scopes[cases.default.value] == scope
  {
  }

  lemma SomeKey(keys: set<int>)
    ensures keys == {} || exists v :: v in keys
  {
    if forall v :: v !in keys {
      assert keys == {};
    }
  }

  // ---------------------------------------------------------------- parts of statements

  lemma CompoundPart(ss: seq<Stmt>, i: nat, scope: Scope, inside: Option<Scope>, table: map<string, Scope>, known: set<string>,
                     seen0: set<Vla>, seen: set<Vla>)
    requires i < |ss| && Distinct(Compound(ss)) && WellScoped(Compound(ss), scope, inside, table, known)
    requires Declared(Compound(ss)) !! seen0 && seen == seen0 + DeclaredBy(ss, i)
    ensures WellScoped(ss[i], AfterAll(ss, i, scope), inside, table, known) && Distinct(ss[i]) && Declared(ss[i]) !! seen
    ensures AfterAll(ss, i + 1, scope) == After(ss[i], AfterAll(ss, i, scope))
    ensures DeclaredBy(ss, i + 1) == DeclaredBy(ss, i) + Declared(ss[i])
  {
    NextDeclared(ss, i, seen0, seen);
  }

  lemma PassesSeen(s: Lowering, t: Lowering, arrays: set<Vla>)
    requires Passes(s, t, arrays)
    ensures Grows(s, t) && t.seen == s.seen + arrays
  {
  }

  lemma NothingDeclared(ss: seq<Stmt>, scope: Scope)
    ensures AfterAll(ss, 0, scope) == scope && DeclaredBy(ss, 0) == {}
  {
  }

  // ---------------------------------------------------------------- the whole function

  lemma StartKept(s: Lowering)
    requires s.blocks == [[]] && s.scopes == [[]] && s.current == 0 && s.open && s.stack == []
    requires s.labels == map[] && s.depths.Keys <= s.table.Keys
    requires forall name :: name in s.table && name in s.known ==> name in s.depths && s.depths[name] == |s.table[name]|
    requires s.loops == [] && s.breaks == [] && s.switches == [] && s.insides == [] && s.seen == {} && s.done == {}
    ensures Inv(s, [])
  {
    forall name | name in s.table && name in s.known
      ensures DepthKept(s, name)
    {
    }
  }

  lemma InvCertified(s: Lowering, scope: Scope)
    requires Inv(s, scope)
    ensures |s.scopes| == |s.blocks| > 0
    ensures !s.open && Complete(s.blocks) && Closed(s.blocks[0]) ==> Certified(s.blocks, s.scopes, s.done, s.top)
    ensures forall name :: name in s.labels ==>
      s.labels[name] < |s.scopes| && name in s.table && s.scopes[s.labels[name]] == s.table[name]
  {
    hide Sound, Exec;
    forall b | 0 <= b < |s.blocks| && Closed(s.blocks[b]) && !s.open
      ensures Sound(s.blocks[b], s.scopes[b], s.scopes, s.done, s.top)
    {
      assert BlockKept(s, b);
    }
  }
}
