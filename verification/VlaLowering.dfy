/** Statement lowering in saltwater-sia/lib.rs: the list of dynamic arrays the compiler keeps, and
    the allocations, releases and jumps it emits. */
module VlaLowering {
  import opened Options
  import opened VlaCode
  import opened VlaProgram
  import opened VlaScopes
  import opened VlaMeaning
  import opened VlaPlaces
  import opened VlaInvariant
  import opened VlaTracking
  import opened VlaEmission
  import opened VlaRefines

  class FunctionLowerer {
    var blocks: seq<seq<Instr>>
    var current: nat
    var loopTargets: seq<Target>
    var breakTargets: seq<Exit>
    var switchCases: seq<Cases>
    var labels: map<string, nat>
    var labelDepths: map<string, nat>
    var terminated: bool
    var dynamicStack: seq<Vla>
    ghost var scopes: seq<Scope>
    ghost var seen: set<Vla>
    ghost var done: set<Vla>
    ghost var open: bool
    ghost var insides: seq<Scope>
    ghost var table: map<string, Scope>
    ghost var top: Scope
    ghost var known: set<string>
    ghost var starts: seq<Place>
    ghost var marks: seq<seq<Place>>
    ghost var place: Place
    ghost var spots: map<string, Point>

    ghost function View(): Lowering
      reads this
    {
      Lowering(blocks, current, dynamicStack, labels, labelDepths, loopTargets, breakTargets, switchCases,
        scopes, seen, done, open, insides, table, top, known, starts, marks, place, spots)
    }

    ghost predicate Good(scope: Scope)
      reads this
    {
      Inv(View(), scope) && Tracked(View())
    }

    /** Between statements. */
    ghost predicate At(scope: Scope)
      reads this
    {
      Good(scope) && open == !terminated
    }

    /** If this is reached, the program is at that point. */
    ghost predicate Here(p: Point)
      reads this
    {
      open ==> place == Place.At(p)
    }

    ghost predicate Beginning(b: nat, p: Point)
      reads this
    {
      StartIs(View(), b, p)
    }

    /** The statement fits the state: its arrays are new, its jumps leave no scope they must not leave, and its labels and
        cases stand where the tables have them. */
    ghost predicate Fitting(s: Stmt, scope: Scope, inside: Option<Scope>, k: Kont, picks: Option<Picks>)
      reads this
    {
      && Inside(inside) && WellScoped(s, scope, inside, table, known) && Distinct(s) && Declared(s) !! seen
      && Aiming(View(), k, picks) && OnePlace(s, k, spots, picks)
    }

    ghost predicate Inside(inside: Option<Scope>)
      reads this
    {
      inside == if insides == [] then None else Some(insides[|insides| - 1])
    }

    ghost predicate ScopeAt(b: nat, scope: Scope)
      reads this
    {
      b < |scopes| && scopes[b] == scope
    }

    // -------------------------------------------------------------- the builder

    method CreateBlock(ghost scope: Scope, ghost added: Scope, ghost at: Place) returns (b: nat)
      requires Good(scope) && Elements(added) <= seen
      modifies this`blocks, this`scopes, this`starts, this`marks
      ensures Good(scope) && Passes(old(View()), View(), {}) && ScopeAt(b, added)
      ensures blocks == old(blocks) + [[]] && b < |starts| && starts[b] == at
    {
      hide Inv, Passes, Tracked;
      BlockCreated(View(), scope, added, at);
      b := |blocks|;
      blocks := blocks + [[]];
      scopes, starts, marks := scopes + [added], starts + [at], marks + [[at]];
      assert View() == WithStart(WithBlock(old(View()), added), at);
    }

    /** The builder fills a block only once. */
    method SwitchTo(b: nat, ghost scope: Scope) returns (ok: bool)
      requires Good(scope) && !open && ScopeAt(b, scope)
      modifies this`current, this`open, this`place
      ensures Good(scope) && Passes(old(View()), View(), {})
      ensures ok ==> open && b < |starts| && place == starts[b]
      ensures !ok ==> !open
    {
      hide Inv, Passes, Tracked;
      BlockThere(View(), scope, b);
      ok := blocks[b] == [];
      if ok {
        BlockOpened(View(), scope, b);
        current, open := b, true;
        place := starts[b];
        assert View() == old(View()).(current := b, open := true, place := old(starts)[b]);
      }
    }

    /** The next block, which a run can reach. */
    method GoOn(b: nat, ghost scope: Scope, ghost p: Point) returns (ok: bool)
      requires Good(scope) && !open && ScopeAt(b, scope) && Beginning(b, p)
      modifies this`current, this`open, this`place, this`terminated
      ensures Passes(old(View()), View(), {}) && Good(scope)
      ensures ok ==> At(scope) && !terminated && open && place == Place.At(p)
    {
      hide Inv, Grows, Tracked;
      ok := SwitchTo(b, scope);
      terminated := false;
    }

    method EmitCleanupTo(depth: nat)
      requires Tracked(View()) && open && current < |blocks| && depth <= |dynamicStack|
      modifies this`blocks, this`marks
      ensures View() == Emitted(old(View()), Frees(dynamicStack[depth..])).(marks := marks) && Tracked(View())
    {
      hide Frees, Tracked;
      NoFrees();
      ghost var code, whole := blocks[current], Frees(dynamicStack[depth..]);
      var i := |dynamicStack|;
      assert code + [] == code && blocks == blocks[current := code];
      assert dynamicStack[depth..i] == dynamicStack[depth..];
      while i > depth
        invariant depth <= i <= |dynamicStack| && current < |blocks| && Tracked(View())
        invariant blocks == old(blocks)[current := blocks[current]]
        invariant blocks[current] + Frees(dynamicStack[depth..i]) == code + whole
      {
        FreesStep(dynamicStack[depth..i]);
        assert dynamicStack[depth..i][..i - depth - 1] == dynamicStack[depth..i - 1];
        i := i - 1;
        EmitFree(dynamicStack[i]);
      }
      assert dynamicStack[depth..depth] == [];
      assert blocks[current] + [] == blocks[current];
    }

    method EmitFree(v: Vla)
      requires Tracked(View()) && open && current < |blocks|
      modifies this`blocks, this`marks
      ensures Tracked(View()) && blocks == old(blocks)[current := old(blocks)[current] + [Free(v)]]
    {
      hide Tracked;
      FreeAdded(View(), v);
      ghost var released := VlaTracking.Released(View(), v);
      blocks := blocks[current := blocks[current] + [Free(v)]];
      marks := released.marks;
      assert View() == released;
    }

    /** Releases the arrays above a depth and ends the block. */
    method End(depth: nat, last: Instr, ghost scope: Scope)
      requires Good(scope) && open && depth <= |dynamicStack| && Expected(View(), scope, depth, last)
      requires Ends(last, place, starts, spots)
      modifies this`blocks, this`marks, this`open
      ensures Good(scope) && Passes(old(View()), View(), {}) && !open
      ensures Appended(old(blocks), blocks, current, Frees(dynamicStack[depth..]) + [last]) && |blocks| == |old(blocks)|
    {
      hide Inv, Expected, Passes, Tracked, Ends, Frees;
      BlockFinished(View(), scope, depth, last);
      EmitCleanupTo(depth);
      EndThere(View(), last);
      ghost var cleaned := View();
      blocks := blocks[current := blocks[current] + [last]];
      open := false;
      assert View() == Finished(cleaned, last);
      EndedSame(old(View()), cleaned, scope, depth, last);
    }

    /** A jump without releases. */
    method EndHere(last: Instr, ghost scope: Scope)
      requires Good(scope) && open && Ends(last, place, starts, spots)
      requires match last
        case Jump(t) => ScopeAt(t, scope)
        case Branch(t, u) => ScopeAt(t, scope) && ScopeAt(u, scope)
        case Match(_, t, u) => ScopeAt(t, scope) && ScopeAt(u, scope)
        case _ => false
      modifies this`blocks, this`marks, this`open
      ensures Good(scope) && Passes(old(View()), View(), {}) && !open
      ensures Appended(old(blocks), blocks, current, [last])
    {
      hide Inv, Grows, Tracked, Ends;
      StaysInScope(View(), scope, last);
      End(|dynamicStack|, last, scope);
      NoFrees();
      assert dynamicStack[|dynamicStack|..] == [] && [] + [last] == [last];
    }

    /** Jumps away, releasing the arrays above a depth. */
    method JumpAway(depth: nat, last: Instr, ghost scope: Scope)
      requires At(scope) && !terminated && depth <= |dynamicStack| && Expected(View(), scope, depth, last)
      requires Ends(last, place, starts, spots)
      modifies this`blocks, this`marks, this`open, this`terminated
      ensures At(scope) && terminated && Passes(old(View()), View(), {})
      ensures Appended(old(blocks), blocks, current, Frees(dynamicStack[depth..]) + [last])
    {
      hide Inv, Passes, Tracked, Ends, Expected, Frees;
      End(depth, last, scope);
      terminated := true;
    }

    /** The value of an expression. */
    method Evaluate(e: ExprId, ghost scope: Scope)
      requires Good(scope) && open && place.At? && Asks(place.point) == Some(e)
      modifies this`blocks, this`marks, this`place
      ensures Good(scope) && Passes(old(View()), View(), {}) && place == Heard(old(place).point)
      ensures Appended(old(blocks), blocks, current, [Eval(e)]) && |blocks| == |old(blocks)|
    {
      hide Inv, Passes, Tracked, Heard;
      EvaluatedThere(View(), scope, e);
      ghost var noted := Noted(View(), Eval(e), Heard(place.point), Heard(place.point));
      blocks := blocks[current := blocks[current] + [Eval(e)]];
      marks, place := noted.marks, noted.place;
      assert View() == noted;
    }

    /** The program makes a silent step. */
    ghost method Move(to: Point, scope: Scope)
      requires Good(scope) && open && place.At? && Silent(place.point, spots) == Some(to)
      modifies this`place
      ensures Good(scope) && Passes(old(View()), View(), {}) && place == Place.At(to)
    {
      hide Inv, Passes, Tracked, Silent;
      MovedThere(View(), scope, to);
      place := Place.At(to);
      assert View() == old(View()).(place := Place.At(to));
    }

    // -------------------------------------------------------------- statements

    method CompileStmt(s: Stmt, ghost scope: Scope, ghost inside: Option<Scope>, ghost k: Kont, ghost picks: Option<Picks>)
      returns (ok: bool)
      requires At(scope) && Fitting(s, scope, inside, k, picks) && Here(Enter(s, k))
      modifies this
      ensures ok ==> At(After(s, scope)) && Passes(old(View()), View(), Declared(s)) && Here(Resume(k))
      ensures ok && !old(terminated) && (s.Declare? || s.Expr? || s.ReturnStmt? || s.Break? || s.Continue?) ==>
        Appended(old(blocks), blocks, old(current), DirectCode(s, old(View())))
      ensures s.Declare? && !old(terminated) ==> ok && !terminated && current == old(current) && |blocks| == |old(blocks)|
      decreases s
    {
      hide Inv, Grows, Tracked, Aiming, OnePlace, After, Declared, DirectCode, WellScoped, Distinct;
      Plainly(s, scope, View());
      if s.Label? {
        ok := CompileLabel(s, scope, inside, k, picks);
        return;
      }
      if terminated && !s.Compound? && !s.Case? && !s.Default? {
        Skip(s, scope);
        return true;
      }
      match s
      case Compound(_) => ok := CompileCompound(s, scope, inside, k, picks);
      case If(_, _, _) => ok := CompileIf(s, scope, inside, k, picks);
      case Do(_, _) => ok := CompileDo(s, scope, inside, k, picks);
      case While(_, _) => ok := CompileWhile(s, scope, inside, k, picks);
      case For(_, _, _, _) => ok := CompileFor(s, scope, inside, k, picks);
      case Switch(_, _) => ok := CompileSwitch(s, scope, inside, k, picks);
      case Case(_, _) => ok := CompileCase(s, scope, inside, k, picks);
      case Default(_) => ok := CompileDefault(s, scope, inside, k, picks);
      case Declare(_) => ok := CompileSimple(s, scope, inside, k, picks);
      case Expr(_) => ok := CompileSimple(s, scope, inside, k, picks);
      case ReturnStmt(_) => ok := CompileSimple(s, scope, inside, k, picks);
      case Goto(_) => ok := CompileSimple(s, scope, inside, k, picks);
      case Break => ok := CompileSimple(s, scope, inside, k, picks);
      case Continue => ok := CompileSimple(s, scope, inside, k, picks);
    }

    /** The statements that have no parts. */
    method CompileSimple(s: Stmt, ghost scope: Scope, ghost inside: Option<Scope>, ghost k: Kont, ghost picks: Option<Picks>)
      returns (ok: bool)
      requires s.Declare? || s.Expr? || s.ReturnStmt? || s.Goto? || s.Break? || s.Continue?
      requires At(scope) && !terminated && Fitting(s, scope, inside, k, picks) && Here(Enter(s, k))
      modifies this
      ensures ok ==> At(After(s, scope)) && Passes(old(View()), View(), Declared(s)) && Here(Resume(k))
      ensures ok && !s.Goto? ==> Appended(old(blocks), blocks, old(current), DirectCode(s, old(View())))
      ensures s.Declare? ==> ok && !terminated && current == old(current) && |blocks| == |old(blocks)|
      decreases s, 0
    {
      hide Inv, Grows, Tracked, Aiming, OnePlace, After, Declared, DirectCode, WellScoped, Distinct, Frees, Allocs, Kept;
      Plainly(s, scope, View());
      match s
      case Declare(_) => CompileDeclare(s, scope, k); ok := true;
      case Expr(e) => Evaluate(e, scope); ok := true;
      case ReturnStmt(result) => CompileReturn(result, scope, k); ok := true;
      case Goto(name) =>
        GotoScoped(name, scope, inside, table, known);
        ok := CompileGoto(name, scope, k);
      case Break => ok := CompileBreak(scope, k, picks);
      case Continue => ok := CompileContinue(scope, k, picks);
    }

    method CompileCase(s: Stmt, ghost scope: Scope, ghost inside: Option<Scope>, ghost k: Kont, ghost picks: Option<Picks>)
      returns (ok: bool)
      requires s.Case? && At(scope) && Fitting(s, scope, inside, k, picks) && Here(Enter(s, k))
      modifies this
      ensures ok ==> At(After(s, scope)) && Passes(old(View()), View(), Declared(s)) && Here(Resume(k))
      decreases s, 3
    {
      hide Inv, Grows, Tracked, Aiming, OnePlace, PicksAt;
      if switchCases == [] || s.value !in switchCases[|switchCases| - 1].values {
        return false;
      }
      CaseKept(View(), scope);
      PickThere(View(), k, picks);
      PassesSelf(View());
      OnePlaceCase(s, k, spots, picks);
      ok := FallInto(switchCases[|switchCases| - 1].values[s.value], s.inner, scope, inside, k, picks, View(), s);
    }

    method CompileDefault(s: Stmt, ghost scope: Scope, ghost inside: Option<Scope>, ghost k: Kont, ghost picks: Option<Picks>)
      returns (ok: bool)
      requires s.Default? && At(scope) && Fitting(s, scope, inside, k, picks) && Here(Enter(s, k))
      modifies this
      ensures ok ==> At(After(s, scope)) && Passes(old(View()), View(), Declared(s)) && Here(Resume(k))
      decreases s, 3
    {
      hide Inv, Grows, Tracked, Aiming, OnePlace, PicksAt;
      if switchCases == [] || switchCases[|switchCases| - 1].default == None {
        return false;
      }
      CaseKept(View(), scope);
      PickThere(View(), k, picks);
      PassesSelf(View());
      OnePlaceCase(s, k, spots, picks);
      ok := FallInto(switchCases[|switchCases| - 1].default.value, s.inner, scope, inside, k, picks, View(), s);
    }

    /** Break releases the arrays of the scopes it leaves. */
    method CompileBreak(ghost scope: Scope, ghost k: Kont, ghost picks: Option<Picks>) returns (ok: bool)
      requires At(scope) && !terminated && Aiming(View(), k, picks) && Here(Enter(Break, k))
      modifies this`blocks, this`marks, this`open, this`terminated
      ensures ok ==> At(scope) && terminated && Passes(old(View()), View(), {})
      ensures ok <==> breakTargets != []
      ensures ok ==> Appended(old(blocks), blocks, current, DirectCode(Break, old(View())))
    {
      hide Inv, Grows, Kept, Frees, EndsWell, Tracked, Ends, Expected, Aiming, Silent;
      if breakTargets == [] {
        return false;
      }
      var target := breakTargets[|breakTargets| - 1];
      BreakKept(View(), scope);
      LeavesTo(View(), scope, target.block, target.depth);
      BreakEnds(View(), k, picks);
      JumpAway(target.depth, Jump(target.block), scope);
      ok := true;
    }

    /** Continue releases those of the scopes inside the loop. */
    method CompileContinue(ghost scope: Scope, ghost k: Kont, ghost picks: Option<Picks>) returns (ok: bool)
      requires At(scope) && !terminated && Aiming(View(), k, picks) && Here(Enter(Continue, k))
      modifies this`blocks, this`marks, this`open, this`terminated
      ensures ok ==> At(scope) && terminated && Passes(old(View()), View(), {})
      ensures ok <==> loopTargets != []
      ensures ok ==> Appended(old(blocks), blocks, current, DirectCode(Continue, old(View())))
    {
      hide Inv, Grows, Kept, Frees, EndsWell, Tracked, Ends, Expected, Aiming, Silent;
      if loopTargets == [] {
        return false;
      }
      var target := loopTargets[|loopTargets| - 1];
      LoopKept(View(), scope);
      LeavesTo(View(), scope, target.next, target.depth);
      ContinueEnds(View(), k, picks);
      JumpAway(target.depth, Jump(target.next), scope);
      ok := true;
    }

    method CompileReturn(result: Option<ExprId>, ghost scope: Scope, ghost k: Kont)
      requires At(scope) && !terminated && Here(Enter(ReturnStmt(result), k))
      modifies this`blocks, this`marks, this`open, this`place, this`terminated
      ensures At(scope) && terminated && Passes(old(View()), View(), {})
      ensures Appended(old(blocks), blocks, current, Evals(result) + Frees(dynamicStack) + [Instr.Return])
    {
      hide Inv, Grows, Frees, Tracked, Ends, Expected;
      ghost var first := View();
      EvaluateResult(result, scope, k);
      ghost var evaluated := View();
      assert dynamicStack[0..] == dynamicStack;
      ReturnsEmpty(View(), scope);
      ReturnEnds(k, starts, spots);
      JumpAway(0, Instr.Return, scope);
      PassesTrans(first, evaluated, View(), {}, {});
      AppendedTwice(first.blocks, evaluated.blocks, blocks, current, Evals(result), Frees(dynamicStack) + [Instr.Return]);
      assert Evals(result) + (Frees(dynamicStack) + [Instr.Return]) == Evals(result) + Frees(dynamicStack) + [Instr.Return];
    }

    method EvaluateResult(result: Option<ExprId>, ghost scope: Scope, ghost k: Kont)
      requires At(scope) && !terminated && Here(Enter(ReturnStmt(result), k))
      modifies this`blocks, this`marks, this`place
      ensures At(scope) && Passes(old(View()), View(), {}) && place == Place.At(Enter(ReturnStmt(None), k))
      ensures Appended(old(blocks), blocks, current, Evals(result)) && |blocks| == |old(blocks)|
    {
      hide Inv, Grows, Tracked;
      InvShaped(View(), scope);
      PassesSelf(View());
      if result.Some? {
        Evaluate(result.value, scope);
      } else {
        assert blocks[current] + [] == blocks[current];
      }
    }

    /** Ordinary statements after a jump are not visited. */
    ghost method Skip(s: Stmt, scope: Scope)
      requires At(scope) && terminated && Declared(s) !! seen
      modifies this`seen
      ensures At(After(s, scope)) && Passes(old(View()), View(), Declared(s))
    {
      hide Inv, After, LeftBy, Declared, Tracked;
      ArraysSkipped(View(), scope, Declared(s));
      InvShaped(View(), scope);
      SeenApart(View(), seen + Declared(s));
      seen := seen + Declared(s);
      LeftDeclared(s);
      AfterLeft(s, scope);
      ScopeSkipped(View(), scope, LeftBy(s));
    }

    method CompileDeclare(s: Stmt, ghost scope: Scope, ghost k: Kont)
      requires s.Declare? && At(scope) && !terminated && Distinct(s) && Declared(s) !! seen && Here(Enter(s, k))
      modifies this`blocks, this`marks, this`place, this`dynamicStack, this`seen, this`done
      ensures At(After(s, scope)) && Passes(old(View()), View(), Declared(s)) && Here(Resume(k))
      ensures Appended(old(blocks), blocks, current, Allocs(s.arrays)) && |blocks| == |old(blocks)|
    {
      hide Inv, Grows, Elements, Tracked, Distinct;
      ghost var first := View();
      AllocAll(s, scope, k);
      ghost var declared := View();
      Move(Resume(k), scope + s.arrays);
      PassesTrans(first, declared, View(), Elements(s.arrays), {});
      assert Elements(s.arrays) + {} == Declared(s);
    }

    method AllocAll(s: Stmt, ghost scope: Scope, ghost k: Kont)
      requires s.Declare? && Good(scope) && open && Distinct(s) && Elements(s.arrays) !! seen && place == Place.At(Enter(s, k))
      modifies this`blocks, this`marks, this`place, this`dynamicStack, this`seen, this`done
      ensures Good(scope + s.arrays) && Passes(old(View()), View(), Elements(s.arrays)) && place == Place.At(Enter(Declare([]), k))
      ensures Appended(old(blocks), blocks, current, Allocs(s.arrays)) && |blocks| == |old(blocks)|
    {
      hide Inv, Grows, Elements, Tracked, Happens, Distinct, Allocs;
      PassesSelf(View());
      InvShaped(View(), scope);
      NoneAllocated(blocks, current, s.arrays, scope);
      for i := 0 to |s.arrays|
        invariant Good(scope + s.arrays[..i]) && open && place == Place.At(Enter(Declare(s.arrays[i..]), k))
        invariant Appended(old(blocks), blocks, current, Allocs(s.arrays[..i])) && |blocks| == |old(blocks)|
        invariant Passes(old(View()), View(), Elements(s.arrays[..i]))
      {
        ghost var before := View();
        NewArray(s.arrays, i, old(seen), seen);
        AllocHappens(s.arrays, i, k);
        AllocArray(s.arrays[i], scope + s.arrays[..i], Enter(Declare(s.arrays[i + 1..]), k));
        OneAllocated(old(blocks), before.blocks, blocks, current, s.arrays, i, scope);
        GrowsTrans(old(View()), before, View());
      }
      AllAllocated(s.arrays);
    }

    method AllocArray(v: Vla, ghost scope: Scope, ghost next: Point)
      requires Good(scope) && open && v !in seen && place.At? && Happens(place.point, Allocated(v), next)
      modifies this`blocks, this`marks, this`place, this`dynamicStack, this`seen, this`done
      ensures Good(scope + [v]) && Passes(old(View()), View(), {v}) && place == Place.At(next)
      ensures Appended(old(blocks), blocks, current, [Alloc(v)]) && |blocks| == |old(blocks)|
    {
      hide Inv, Passes, Tracked, Happens;
      AllocatedThere(View(), scope, v, next);
      ghost var noted := Noted(View(), Alloc(v), Place.At(next), Place.At(next));
      blocks := blocks[current := blocks[current] + [Alloc(v)]];
      dynamicStack := dynamicStack + [v];
      seen, done := seen + {v}, done + {v};
      marks, place := noted.marks, noted.place;
      assert View() == noted.(stack := dynamicStack, seen := seen, done := done);
    }

    method CompileCompound(s: Stmt, ghost scope: Scope, ghost inside: Option<Scope>, ghost k: Kont, ghost picks: Option<Picks>)
      returns (ok: bool)
      requires s.Compound? && At(scope) && Fitting(s, scope, inside, k, picks) && Here(Enter(s, k))
      modifies this
      ensures ok ==> At(scope) && Passes(old(View()), View(), Declared(s)) && Here(Resume(k))
      decreases s, 3
    {
      hide Inv, Grows, Tracked, Aiming, OnePlace;
      var dynamicDepth := |dynamicStack|;
      ghost var first := View();
      PassesSelf(first);
      if !terminated {
        Move(Resume(Seq(s.stmts, 0, k)), scope);
      }
      ghost var entered := View();
      AimsGrow(first, entered, k, picks);
      GrowsFrame(first, entered);
      ok := CompileAll(s.stmts, scope, inside, k, picks, s);
      if !ok {
        return;
      }
      PassesTrans(first, entered, View(), {}, Declared(s));
      LeaveCompound(s.stmts, scope, dynamicDepth, k, first);
    }

    /** The arrays of the block go out of scope. */
    method LeaveCompound(ghost ss: seq<Stmt>, ghost scope: Scope, depth: nat, ghost k: Kont, ghost first: Lowering)
      requires At(AfterAll(ss, |ss|, scope)) && Inv(first, scope) && Grows(first, View()) && depth == |first.stack|
      requires Here(Resume(Seq(ss, |ss|, k)))
      modifies this`blocks, this`marks, this`place, this`dynamicStack
      ensures At(scope) && Grows(first, View()) && seen == old(seen) && Here(Resume(k))
    {
      hide Inv, Grows, Tracked;
      ghost var before := View();
      CompoundLeft(first, before, scope);
      ScopeLeft(before, AfterAll(ss, |ss|, scope), scope, depth);
      InvShaped(before, AfterAll(ss, |ss|, scope));
      if !terminated {
        EmitCleanupTo(depth);
      }
      ghost var released := View();
      dynamicStack := dynamicStack[..depth];
      ArraysApart(released, dynamicStack, seen, done);
      assert View() == Renamed(Left(before, depth), starts, marks, place);
      PlacesApart(Left(before, depth), scope, starts, marks, place);
      GrowsStarts(before, Left(before, depth), View());
      GrowsTrans(first, before, View());
      ghost var left := View();
      if !terminated {
        Move(Resume(k), scope);
        GrowsTrans(first, left, View());
      }
    }

    method CompileAll(ss: seq<Stmt>, ghost scope: Scope, ghost inside: Option<Scope>, ghost k: Kont, ghost picks: Option<Picks>,
                      ghost whole: Stmt) returns (ok: bool)
      requires whole == Compound(ss) && At(scope) && Fitting(whole, scope, inside, k, picks) && Here(Resume(Seq(ss, 0, k)))
      modifies this
      ensures ok ==> At(AfterAll(ss, |ss|, scope)) && Passes(old(View()), View(), Declared(whole)) && Here(Resume(Seq(ss, |ss|, k)))
      ensures OneDeclaration(ss) && !old(terminated) ==> ok && !terminated && current == old(current) && |blocks| == |old(blocks)|
      ensures OneDeclaration(ss) && !old(terminated) ==> Appended(old(blocks), blocks, current, Allocs(ss[0].arrays))
      decreases whole, 1
    {
      hide Inv, Grows, WellScoped, Distinct, Declared, DeclaredBy, After, AfterAll, Tracked, Aiming, OnePlace, Allocs;
      PassesSelf(View());
      DeclaredCompound(ss);
      NothingDeclared(ss, scope);
      for i := 0 to |ss|
        invariant At(AfterAll(ss, i, scope)) && Passes(old(View()), View(), DeclaredBy(ss, i)) && Here(Resume(Seq(ss, i, k)))
        invariant i == 0 ==> blocks == old(blocks) && current == old(current) && terminated == old(terminated)
        invariant i == 1 && OneDeclaration(ss) && !old(terminated) ==> !terminated && current == old(current) && |blocks| == |old(blocks)|
        invariant i == 1 && OneDeclaration(ss) && !old(terminated) ==> Appended(old(blocks), blocks, current, Allocs(ss[0].arrays))
      {
        GrowsFrame(old(View()), View());
        ok := CompileNext(ss, i, scope, inside, k, picks, whole, old(View()));
        if !ok {
          return;
        }
      }
      ok := true;
    }

    /** Statement i of a block. */
    method CompileNext(ss: seq<Stmt>, i: nat, ghost scope: Scope, ghost inside: Option<Scope>, ghost k: Kont,
                       ghost picks: Option<Picks>, ghost whole: Stmt, ghost first: Lowering) returns (ok: bool)
      requires whole == Compound(ss) && i < |ss| && At(AfterAll(ss, i, scope)) && Here(Resume(Seq(ss, i, k)))
      requires Inside(inside) && WellScoped(whole, scope, inside, table, known) && Distinct(whole) && Declared(whole) !! first.seen
      requires Aiming(first, k, picks) && OnePlace(whole, k, spots, picks) && Passes(first, View(), DeclaredBy(ss, i))
      modifies this
      ensures ok ==> At(AfterAll(ss, i + 1, scope)) && Passes(first, View(), DeclaredBy(ss, i + 1)) && Here(Resume(Seq(ss, i + 1, k)))
      ensures ss[i].Declare? && !old(terminated) ==> ok && !terminated && current == old(current) && |blocks| == |old(blocks)|
      ensures ss[i].Declare? && !old(terminated) ==> Appended(old(blocks), blocks, current, Allocs(ss[i].arrays))
      decreases whole, 0
    {
      hide Inv, Grows, WellScoped, Distinct, Declared, DeclaredBy, After, AfterAll, Tracked, Aiming, OnePlace, Allocs;
      ghost var before := View();
      GrowsFrame(first, before);
      CompoundPart(ss, i, scope, inside, table, known, first.seen, seen);
      PassesSelf(before);
      if !terminated {
        Move(Enter(ss[i], Seq(ss, i + 1, k)), AfterAll(ss, i, scope));
      }
      ghost var entered := View();
      GrowsFrame(before, entered);
      PassesTrans(first, before, entered, DeclaredBy(ss, i), {});
      AimsGrow(first, entered, k, picks);
      AimsInside(entered, k, Seq(ss, i + 1, k), picks);
      OnePlacePart(ss, i, k, spots, picks);
      ok := CompileStmt(ss[i], AfterAll(ss, i, scope), inside, Seq(ss, i + 1, k), picks);
      DirectDeclare(ss[i], entered);
      if ok {
        PassesTrans(first, entered, View(), DeclaredBy(ss, i), Declared(ss[i]));
      }
    }

    method CompileLabel(s: Stmt, ghost scope: Scope, ghost inside: Option<Scope>, ghost k: Kont, ghost picks: Option<Picks>)
      returns (ok: bool)
      requires s.Label? && At(scope) && Fitting(s, scope, inside, k, picks) && Here(Enter(s, k))
      modifies this
      ensures ok ==> At(After(s, scope)) && Passes(old(View()), View(), Declared(s)) && Here(Resume(k))
      decreases s, 3
    {
      hide Inv, Grows, Tracked, Aiming, OnePlace, Silent;
      ghost var first := View();
      OnePlaceLabel(s, k, spots, picks);
      var block := LabelBlock(s.name, scope);
      ghost var created := View();
      RecordDepth(s.name, scope);
      LabelMoves(s, k, spots);
      PassesTrans(first, created, View(), {}, {});
      GrowsFrame(first, View());
      AimsGrow(first, View(), k, picks);
      ok := FallInto(block, s.inner, scope, inside, k, picks, first, s);
    }

    method RecordDepth(name: string, ghost scope: Scope)
      requires At(scope) && name in table && table[name] == scope
      modifies this`labelDepths
      ensures At(scope) && Passes(old(View()), View(), {})
    {
      hide Inv, Tracked, Grows;
      DepthRecorded(View(), scope, name);
      DepthsApart(View(), labelDepths[name := |dynamicStack|]);
      labelDepths := labelDepths[name := |dynamicStack|];
      assert View() == old(View()).(depths := labelDepths);
    }

    /** Falls through to a new block, if the end before it is reached, and goes on there. */
    method FallInto(block: nat, inner: Stmt, ghost scope: Scope, ghost inside: Option<Scope>, ghost k: Kont,
                    ghost picks: Option<Picks>, ghost first: Lowering, ghost outer: Stmt) returns (ok: bool)
      requires At(scope) && Fitting(inner, scope, inside, k, picks) && ScopeAt(block, scope) && !inner.Declare? && inner < outer
      requires Beginning(block, Enter(inner, k)) && Here(Enter(outer, k))
      requires Silent(Enter(outer, k), spots) == Some(Enter(inner, k)) && Passes(first, View(), {})
      modifies this
      ensures ok ==> At(After(inner, scope)) && Passes(first, View(), Declared(inner)) && Here(Resume(k))
      decreases outer, 1
    {
      hide Inv, Grows, Tracked, Aiming, OnePlace, Ends;
      ghost var created := View();
      GrowsFrame(first, created);
      if !terminated {
        StepEnds(Enter(outer, k), block, Enter(inner, k), starts, spots);
        EndHere(Jump(block), scope);
      } else {
        PassesSelf(View());
      }
      ghost var jumped := View();
      GrowsFrame(created, jumped);
      ok := GoOn(block, scope, Enter(inner, k));
      if !ok {
        return;
      }
      ghost var entered := View();
      GrowsFrame(jumped, entered);
      GrowsTrans(created, jumped, entered);
      AimsGrow(created, entered, k, picks);
      ok := CompileStmt(inner, scope, inside, k, picks);
      if ok {
        PassesTrans(first, created, jumped, {}, {});
        PassesTrans(first, jumped, entered, {}, {});
        PassesTrans(first, entered, View(), {}, Declared(inner));
      }
    }

    /** The block of a label, created on the first mention. */
    method LabelBlock(name: string, ghost scope: Scope) returns (block: nat)
      requires Good(scope) && name in table && table[name] <= scope
      modifies this`blocks, this`scopes, this`starts, this`marks, this`labels
      ensures Good(scope) && Passes(old(View()), View(), {}) && ScopeAt(block, table[name])
      ensures name in labels && labels[name] == block && old(blocks) <= blocks
      ensures name in spots && Beginning(block, spots[name])
    {
      hide Inv, Grows, Tracked;
      SpotThere(View(), name);
      if name in labels {
        LabelKept(View(), scope, name);
        LabelThere(View(), name);
        PassesSelf(View());
        return labels[name];
      }
      PrefixPassed(View(), scope, table[name]);
      block := CreateBlock(scope, table[name], Place.At(spots[name]));
      ghost var created := View();
      LabelAdded(created, scope, name, block);
      LabelNamed(created, name, block);
      labels := labels[name := block];
      PassesTrans(old(View()), created, View(), {}, {});
    }

    method CompileGoto(name: string, ghost scope: Scope, ghost k: Kont) returns (ok: bool)
      requires At(scope) && !terminated && (name in table ==> table[name] <= scope && name in known) && Here(Enter(Goto(name), k))
      modifies this
      ensures ok ==> At(scope) && Passes(old(View()), View(), {})
      ensures ok ==> terminated && name in labels && name in labelDepths && labelDepths[name] <= |dynamicStack|
      ensures ok ==>
        Appended(old(blocks), blocks, current, Frees(dynamicStack[labelDepths[name]..]) + [Jump(labels[name])])
    {
      hide Inv, Grows, Tracked, Ends, Silent, Frees, Expected;
      InvShaped(View(), scope);
      if name !in labelDepths || labelDepths[name] > |dynamicStack| {
        return false;
      }
      OnlyTable(View(), scope, name);
      var block := LabelBlock(name, scope);
      ghost var created := View();
      GoesTo(created, scope, name, block);
      GotoEnds(name, k, block, starts, spots);
      JumpAway(labelDepths[name], Jump(block), scope);
      ok := true;
      PassesTrans(old(View()), created, View(), {}, {});
    }

    /** A statement in a block of its own, which then goes on to `next`, unless it jumps away. */
    method CompileBranch(b: nat, s: Stmt, next: nat, ghost scope: Scope, ghost inside: Option<Scope>, ghost k: Kont,
                         ghost picks: Option<Picks>, ghost outer: Stmt) returns (ok: bool)
      requires s < outer && Good(scope) && !open && Fitting(s, scope, inside, k, picks) && Steady(s)
      requires ScopeAt(b, scope) && ScopeAt(next, scope) && Beginning(b, Enter(s, k))
      requires SilentResume(k).Some? && Beginning(next, SilentResume(k).value)
      modifies this
      ensures ok ==> Good(scope) && !open && Passes(old(View()), View(), Declared(s))
      decreases outer, 1
    {
      hide Inv, Grows, After, Tracked, Aiming, OnePlace, Ends, SilentResume;
      ghost var first := View();
      ok := GoOn(b, scope, Enter(s, k));
      if !ok {
        return;
      }
      ghost var entered := View();
      GrowsFrame(first, entered);
      AimsGrow(first, entered, k, picks);
      ok := CompileStmt(s, scope, inside, k, picks);
      if !ok {
        return;
      }
      SteadyAfter(s, scope);
      ghost var compiled := View();
      GrowsFrame(entered, compiled);
      if !terminated {
        StepEnds(Resume(k), next, SilentResume(k).value, starts, spots);
        EndHere(Jump(next), scope);
      } else {
        PassesSelf(View());
      }
      PassesTrans(first, entered, compiled, {}, Declared(s));
      PassesTrans(first, compiled, View(), Declared(s), {});
    }

    method CompileIf(s: Stmt, ghost scope: Scope, ghost inside: Option<Scope>, ghost k: Kont, ghost picks: Option<Picks>)
      returns (ok: bool)
      requires s.If? && At(scope) && !terminated && Fitting(s, scope, inside, k, picks) && Here(Enter(s, k))
      modifies this
      ensures ok ==> At(scope) && Passes(old(View()), View(), Declared(s)) && Here(Resume(k))
      decreases s, 4
    {
      hide Inv, Grows, Tracked, Aiming, OnePlace, Silent, Appended;
      ghost var first := View();
      IfParts(s, k, spots, picks);
      var thenBlock, elseBlock, merge := IfHeader(s, scope, k);
      ghost var split := View();
      GrowsFrame(first, split);
      AimsGrow(first, split, k, picks);
      AimsInside(split, k, Join(k), picks);
      ok := CompileBranch(thenBlock, s.yes, merge, scope, inside, Join(k), picks, s);
      if !ok {
        return;
      }
      var thenTerminated := terminated;
      ghost var joined := View();
      GrowsFrame(split, joined);
      AimsGrow(split, joined, Join(k), picks);
      PassesTrans(first, split, joined, {}, Declared(s.yes));
      ok := JoinElse(thenTerminated, elseBlock, s.no, merge, scope, inside, k, picks, s);
      if ok {
        PassesTrans(first, joined, View(), Declared(s.yes), if s.no.Some? then Declared(s.no.value) else {});
      }
    }

    /** The other branch, and what follows both. */
    method JoinElse(thenTerminated: bool, b: nat, no: Option<Stmt>, merge: nat, ghost scope: Scope, ghost inside: Option<Scope>,
                    ghost k: Kont, ghost picks: Option<Picks>, ghost outer: Stmt) returns (ok: bool)
      requires Good(scope) && !open && ScopeAt(b, scope) && ScopeAt(merge, scope) && Beginning(merge, Resume(k))
      requires no.Some? ==> no.value < outer && Steady(no.value) && Fitting(no.value, scope, inside, Join(k), picks)
      requires Beginning(b, if no.Some? then Enter(no.value, Join(k)) else Resume(Join(k)))
      modifies this
      ensures ok ==> At(scope) && Here(Resume(k))
      ensures ok ==> Passes(old(View()), View(), if no.Some? then Declared(no.value) else {})
      decreases outer, 3
    {
      hide Inv, Grows, Tracked, Aiming, OnePlace, Declared, WellScoped, Distinct;
      ghost var first := View();
      ok := CompileElse(b, no, merge, scope, inside, k, picks, outer);
      if !ok {
        return;
      }
      ghost var both := View();
      GrowsFrame(first, both);
      ok := Merge(thenTerminated, merge, scope, k);
      PassesTrans(first, both, View(), if no.Some? then Declared(no.value) else {}, {});
    }

    method IfHeader(s: Stmt, ghost scope: Scope, ghost k: Kont) returns (thenBlock: nat, elseBlock: nat, merge: nat)
      requires s.If? && At(scope) && !terminated && Here(Enter(s, k))
      modifies this`blocks, this`scopes, this`starts, this`marks, this`place, this`open
      ensures Good(scope) && !open && Passes(old(View()), View(), {})
      ensures Appended(old(blocks), blocks, current, [Eval(s.condition), Branch(thenBlock, elseBlock)])
      ensures ScopeAt(thenBlock, scope) && ScopeAt(elseBlock, scope) && ScopeAt(merge, scope)
      ensures Beginning(thenBlock, Enter(s.yes, Join(k))) && Beginning(merge, Resume(k))
      ensures Beginning(elseBlock, if s.no.Some? then Enter(s.no.value, Join(k)) else Resume(Join(k)))
    {
      hide Inv, Grows, Tracked, Ends, Heard, Asks;
      ghost var first := View();
      IfAsks(s, k);
      Evaluate(s.condition, scope);
      ghost var evaluated := View();
      thenBlock, elseBlock, merge := Fork(s, scope, k);
      PassesTrans(first, evaluated, View(), {}, {});
      AppendedTwice(first.blocks, evaluated.blocks, blocks, current, [Eval(s.condition)], [Branch(thenBlock, elseBlock)]);
      assert [Eval(s.condition)] + [Branch(thenBlock, elseBlock)] == [Eval(s.condition), Branch(thenBlock, elseBlock)];
    }

    method Fork(s: Stmt, ghost scope: Scope, ghost k: Kont) returns (thenBlock: nat, elseBlock: nat, merge: nat)
      requires s.If? && Good(scope) && open && Asks(Enter(s, k)).Some? && place == Heard(Enter(s, k))
      modifies this`blocks, this`scopes, this`starts, this`marks, this`open
      ensures Good(scope) && !open && Passes(old(View()), View(), {})
      ensures Appended(old(blocks), blocks, current, [Branch(thenBlock, elseBlock)])
      ensures ScopeAt(thenBlock, scope) && ScopeAt(elseBlock, scope) && ScopeAt(merge, scope)
      ensures Beginning(thenBlock, Enter(s.yes, Join(k))) && Beginning(merge, Resume(k))
      ensures Beginning(elseBlock, if s.no.Some? then Enter(s.no.value, Join(k)) else Resume(Join(k)))
    {
      hide Inv, Grows, Tracked, Ends, Heard, Asks;
      ghost var first := View();
      InvShaped(first, scope);
      thenBlock, elseBlock, merge := CreateThree(scope, Place.At(Enter(s.yes, Join(k))),
        Place.At(if s.no.Some? then Enter(s.no.value, Join(k)) else Resume(Join(k))), Place.At(Resume(k)));
      ghost var three := View();
      IfEnds(s, k, thenBlock, elseBlock, starts, spots);
      EndHere(Branch(thenBlock, elseBlock), scope);
      GrowsFrame(three, View());
      PassesTrans(first, three, View(), {}, {});
    }

    /** After both branches: the end is reached when either of them reaches its own. */
    method Merge(thenTerminated: bool, merge: nat, ghost scope: Scope, ghost k: Kont) returns (ok: bool)
      requires Good(scope) && !open && ScopeAt(merge, scope) && Beginning(merge, Resume(k))
      modifies this`current, this`open, this`place, this`terminated
      ensures Passes(old(View()), View(), {})
      ensures ok ==> At(scope) && Here(Resume(k))
    {
      hide Inv, Grows, Tracked;
      var elseTerminated := terminated;
      if thenTerminated && elseTerminated {
        terminated := true;
        PassesSelf(View());
        return true;
      }
      ok := GoOn(merge, scope, Resume(k));
    }

    method CompileElse(b: nat, no: Option<Stmt>, next: nat, ghost scope: Scope, ghost inside: Option<Scope>, ghost k: Kont,
                       ghost picks: Option<Picks>, ghost outer: Stmt) returns (ok: bool)
      requires Good(scope) && !open && ScopeAt(b, scope) && ScopeAt(next, scope) && Beginning(next, Resume(k))
      requires no.Some? ==> no.value < outer && Steady(no.value) && Fitting(no.value, scope, inside, Join(k), picks)
      requires Beginning(b, if no.Some? then Enter(no.value, Join(k)) else Resume(Join(k)))
      modifies this
      ensures ok ==> Good(scope) && !open
      ensures ok ==> Passes(old(View()), View(), if no.Some? then Declared(no.value) else {})
      decreases outer, 2
    {
      hide Inv, Grows, Tracked, Aiming, OnePlace, Ends;
      if no.Some? {
        ok := CompileBranch(b, no.value, next, scope, inside, Join(k), picks, outer);
        return;
      }
      ghost var first := View();
      ok := GoOn(b, scope, Resume(Join(k)));
      if !ok {
        return;
      }
      ghost var entered := View();
      GrowsFrame(first, entered);
      StepEnds(Resume(Join(k)), next, Resume(k), starts, spots);
      EndHere(Jump(next), scope);
      PassesTrans(first, entered, View(), {}, {});
    }

    method CreateThree(ghost scope: Scope, ghost pa: Place, ghost pb: Place, ghost pc: Place) returns (a: nat, b: nat, c: nat)
      requires Good(scope) && Elements(scope) <= seen
      modifies this`blocks, this`scopes, this`starts, this`marks
      ensures Good(scope) && Passes(old(View()), View(), {})
      ensures ScopeAt(a, scope) && ScopeAt(b, scope) && ScopeAt(c, scope)
      ensures a < |starts| && b < |starts| && c < |starts| && starts[a] == pa && starts[b] == pb && starts[c] == pc
      ensures blocks == old(blocks) + [[], [], []]
    {
      hide Inv, Grows, Tracked;
      a := CreateBlock(scope, scope, pa);
      ghost var one := View();
      b := CreateBlock(scope, scope, pb);
      ghost var two := View();
      c := CreateBlock(scope, scope, pc);
      GrowsFrame(one, two);
      GrowsFrame(two, View());
      PassesTrans(old(View()), one, two, {}, {});
      PassesTrans(old(View()), two, View(), {}, {});
    }

    /** A loop body with its targets, from a block of its own, going on to `after`. */
    method CompileLoopBody(b: nat, s: Stmt, next: nat, exit: nat, ghost scope: Scope, ghost inside: Option<Scope>, ghost k: Kont,
                           ghost picks: Option<Picks>, ghost outer: Stmt) returns (ok: bool)
      requires s < outer && Good(scope) && !open && Inside(inside) && Aiming(View(), k, picks)
      requires ScopeAt(b, scope) && ScopeAt(next, scope) && ScopeAt(exit, scope)
      requires Beginning(b, Enter(s, Back(outer, k))) && Beginning(next, Again(outer, k)) && Beginning(exit, Resume(k))
      requires Steady(s) && WellScoped(s, scope, inside, table, known) && Distinct(s) && Declared(s) !! seen
      requires OnePlace(s, Back(outer, k), spots, picks)
      modifies this
      ensures ok ==> Good(scope) && !open && Passes(old(View()), View(), Declared(s))
      decreases outer, 2
    {
      hide Inv, Grows, Tracked, Aiming, OnePlace;
      ghost var first := View();
      AimsLoop(first, k, picks, outer, next, exit);
      PushLoop(next, exit, scope);
      ghost var aimed := View();
      ok := CompileBranch(b, s, next, scope, inside, Back(outer, k), picks, outer);
      if !ok {
        return;
      }
      ghost var compiled := View();
      PopLoop(first, aimed, scope);
    }

    method PushLoop(next: nat, exit: nat, ghost scope: Scope)
      requires Good(scope) && ScopeAt(next, scope) && ScopeAt(exit, scope)
      modifies this`loopTargets, this`breakTargets
      ensures Good(scope) && View() == InLoop(old(View()), next, exit)
    {
      hide Inv, Tracked;
      ghost var inner := InLoop(View(), next, exit);
      LoopEntered(View(), scope, next, exit);
      TargetsApart(View(), inner.loops, inner.breaks, switchCases, insides);
      loopTargets := loopTargets + [Target(next, exit, |dynamicStack|)];
      breakTargets := breakTargets + [Exit(exit, |dynamicStack|)];
      assert View() == inner == Aimed(old(View()), inner.loops, inner.breaks, switchCases, insides);
    }

    /** The targets are again those of `first`, from which the loop was entered. */
    method PopLoop(ghost first: Lowering, ghost aimed: Lowering, ghost scope: Scope)
      requires Good(scope) && Inv(first, scope) && Grows(aimed, View())
      requires aimed == Aimed(first, aimed.loops, aimed.breaks, first.switches, first.insides)
      requires |aimed.loops| == |first.loops| + 1 && |aimed.breaks| == |first.breaks| + 1
      requires first.loops <= aimed.loops && first.breaks <= aimed.breaks
      modifies this`loopTargets, this`breakTargets
      ensures Good(scope) && Grows(first, View()) && seen == old(seen)
    {
      hide Inv, Tracked, Grows;
      GrowsFrame(aimed, View());
      TargetsRestored(first, aimed, View(), scope);
      TargetsApart(View(), first.loops, first.breaks, first.switches, first.insides);
      breakTargets := breakTargets[..|breakTargets| - 1];
      loopTargets := loopTargets[..|loopTargets| - 1];
      assert View() == Aimed(old(View()), first.loops, first.breaks, first.switches, first.insides);
    }

    method CompileDo(s: Stmt, ghost scope: Scope, ghost inside: Option<Scope>, ghost k: Kont, ghost picks: Option<Picks>)
      returns (ok: bool)
      requires s.Do? && At(scope) && !terminated && Fitting(s, scope, inside, k, picks) && Here(Enter(s, k))
      modifies this
      ensures ok ==> At(scope) && Passes(old(View()), View(), Declared(s)) && Here(Resume(k))
      decreases s, 3
    {
      hide Inv, Grows, Tracked, Aiming, OnePlace, Ends, Asks, Heard, Silent;
      ghost var first := View();
      LoopParts(s, k, spots, picks);
      var bodyBlock, conditionBlock, exit := DoHeader(s, scope, k);
      ghost var split := View();
      GrowsFrame(first, split);
      AimsGrow(first, split, k, picks);
      ok := CompileLoopBody(bodyBlock, s.body, conditionBlock, exit, scope, inside, k, picks, s);
      if !ok {
        return;
      }
      ghost var looped := View();
      GrowsFrame(split, looped);
      PassesTrans(first, split, looped, {}, Declared(s));
      ConditionEnds(s, k, bodyBlock, exit, starts, spots);
      ok := CloseLoop(conditionBlock, Some(s.condition), Branch(bodyBlock, exit), exit, scope, s, k);
      PassesTrans(first, looped, View(), Declared(s), {});
    }

    method DoHeader(s: Stmt, ghost scope: Scope, ghost k: Kont) returns (bodyBlock: nat, conditionBlock: nat, exit: nat)
      requires s.Do? && At(scope) && !terminated && Here(Enter(s, k))
      modifies this`blocks, this`scopes, this`starts, this`marks, this`open
      ensures Good(scope) && !open && Passes(old(View()), View(), {})
      ensures ScopeAt(bodyBlock, scope) && ScopeAt(conditionBlock, scope) && ScopeAt(exit, scope)
      ensures Beginning(bodyBlock, Enter(s.body, Back(s, k))) && Beginning(conditionBlock, Again(s, k)) && Beginning(exit, Resume(k))
    {
      hide Inv, Grows, Tracked, Ends, Asks, Heard, Silent;
      ghost var first := View();
      InvShaped(first, scope);
      bodyBlock, conditionBlock, exit := CreateThree(scope, Place.At(Enter(s.body, Back(s, k))), Place.At(Again(s, k)),
        Place.At(Resume(k)));
      ghost var three := View();
      GrowsFrame(first, three);
      DoEnds(s, k, bodyBlock, starts, spots);
      EndHere(Jump(bodyBlock), scope);
      GrowsFrame(three, View());
      PassesTrans(first, three, View(), {}, {});
    }

    /** The block that closes a loop, and the exit after it. */
    method CloseLoop(b: nat, e: Option<ExprId>, last: Instr, exit: nat, ghost scope: Scope, ghost loop: Stmt, ghost k: Kont)
      returns (ok: bool)
      requires Good(scope) && !open && ScopeAt(b, scope) && ScopeAt(exit, scope)
      requires Beginning(b, Again(loop, k)) && Beginning(exit, Resume(k)) && Asks(Again(loop, k)) == e
      requires if e.Some? then Ends(last, Heard(Again(loop, k)), starts, spots)
               else Silent(Again(loop, k), spots) == Some(Resume(Begin(loop, k))) && Ends(last, Place.At(Resume(Begin(loop, k))), starts, spots)
      requires match last
        case Jump(t) => ScopeAt(t, scope)
        case Branch(t, u) => ScopeAt(t, scope) && ScopeAt(u, scope)
        case _ => false
      modifies this`blocks, this`marks, this`place, this`current, this`open, this`terminated
      ensures Passes(old(View()), View(), {})
      ensures ok ==> At(scope) && Here(Resume(k))
    {
      hide Inv, Grows, Tracked, Ends, Heard, Silent, Asks;
      ghost var first := View();
      ok := TurnBack(b, e, last, scope, loop, k);
      if !ok {
        return;
      }
      ghost var ended := View();
      GrowsFrame(first, ended);
      ok := GoOn(exit, scope, Resume(k));
      PassesTrans(first, ended, View(), {}, {});
    }

    /** What a loop does before its next turn. */
    method TurnBack(b: nat, e: Option<ExprId>, last: Instr, ghost scope: Scope, ghost loop: Stmt, ghost k: Kont) returns (ok: bool)
      requires Good(scope) && !open && ScopeAt(b, scope) && Beginning(b, Again(loop, k)) && Asks(Again(loop, k)) == e
      requires if e.Some? then Ends(last, Heard(Again(loop, k)), starts, spots)
               else Silent(Again(loop, k), spots) == Some(Resume(Begin(loop, k))) && Ends(last, Place.At(Resume(Begin(loop, k))), starts, spots)
      requires match last
        case Jump(t) => ScopeAt(t, scope)
        case Branch(t, u) => ScopeAt(t, scope) && ScopeAt(u, scope)
        case _ => false
      modifies this`blocks, this`marks, this`place, this`current, this`open
      ensures Passes(old(View()), View(), {}) && (ok ==> Good(scope) && !open)
    {
      hide Inv, Grows, Tracked, Ends, Heard, Silent, Asks;
      ghost var first := View();
      ok := SwitchTo(b, scope);
      if !ok {
        return;
      }
      ghost var entered := View();
      GrowsFrame(first, entered);
      if e.Some? {
        Evaluate(e.value, scope);
      } else {
        Move(Resume(Begin(loop, k)), scope);
      }
      ghost var evaluated := View();
      GrowsFrame(entered, evaluated);
      EndHere(last, scope);
      PassesTrans(first, entered, evaluated, {}, {});
      PassesTrans(first, evaluated, View(), {}, {});
    }

    method WhileHeader(s: Stmt, ghost scope: Scope, ghost k: Kont) returns (ok: bool, header: nat, bodyBlock: nat, exit: nat)
      requires s.While? && At(scope) && !terminated && Here(Enter(s, k))
      modifies this`blocks, this`scopes, this`starts, this`marks, this`place, this`current, this`open
      ensures ok ==> Good(scope) && !open && Passes(old(View()), View(), {})
      ensures ok ==> ScopeAt(header, scope) && ScopeAt(bodyBlock, scope) && ScopeAt(exit, scope)
      ensures ok ==> Beginning(header, Again(s, k)) && Beginning(bodyBlock, Enter(s.body, Back(s, k))) && Beginning(exit, Resume(k))
    {
      hide Inv, Grows, Tracked, Ends, Asks, Heard, Silent;
      ghost var first := View();
      InvShaped(first, scope);
      header, bodyBlock, exit := CreateThree(scope, Place.At(Again(s, k)), Place.At(Enter(s.body, Back(s, k))), Place.At(Resume(k)));
      ghost var three := View();
      GrowsFrame(first, three);
      WhileEnds(s, k, header, starts, spots);
      EndHere(Jump(header), scope);
      ghost var jumped := View();
      GrowsFrame(three, jumped);
      ok := SwitchTo(header, scope);
      if !ok {
        return;
      }
      ghost var entered := View();
      GrowsFrame(jumped, entered);
      TestCondition(s, scope, k, bodyBlock, exit);
      GrowsFrame(entered, View());
      PassesTrans(first, three, jumped, {}, {});
      PassesTrans(first, jumped, entered, {}, {});
      PassesTrans(first, entered, View(), {}, {});
    }

    method TestCondition(s: Stmt, ghost scope: Scope, ghost k: Kont, bodyBlock: nat, exit: nat)
      requires s.While? && Good(scope) && open && place == Place.At(Again(s, k)) && ScopeAt(bodyBlock, scope) && ScopeAt(exit, scope)
      requires Beginning(bodyBlock, Enter(s.body, Back(s, k))) && Beginning(exit, Resume(k))
      modifies this`blocks, this`marks, this`place, this`open
      ensures Good(scope) && !open && Passes(old(View()), View(), {})
    {
      hide Inv, Grows, Tracked, Ends, Heard, Silent;
      ghost var first := View();
      Evaluate(s.condition, scope);
      ghost var evaluated := View();
      GrowsFrame(first, evaluated);
      ConditionEnds(s, k, bodyBlock, exit, starts, spots);
      EndHere(Branch(bodyBlock, exit), scope);
      PassesTrans(first, evaluated, View(), {}, {});
    }

    method CompileWhile(s: Stmt, ghost scope: Scope, ghost inside: Option<Scope>, ghost k: Kont, ghost picks: Option<Picks>)
      returns (ok: bool)
      requires s.While? && At(scope) && !terminated && Fitting(s, scope, inside, k, picks) && Here(Enter(s, k))
      modifies this
      ensures ok ==> At(scope) && Passes(old(View()), View(), Declared(s)) && Here(Resume(k))
      decreases s, 3
    {
      hide Inv, Grows, Tracked, Aiming, OnePlace;
      ghost var first := View();
      LoopParts(s, k, spots, picks);
      var header, bodyBlock, exit;
      ok, header, bodyBlock, exit := WhileHeader(s, scope, k);
      if !ok {
        return;
      }
      ghost var split := View();
      GrowsFrame(first, split);
      AimsGrow(first, split, k, picks);
      ok := CompileLoopBody(bodyBlock, s.body, header, exit, scope, inside, k, picks, s);
      if !ok {
        return;
      }
      ghost var looped := View();
      GrowsFrame(split, looped);
      PassesTrans(first, split, looped, {}, Declared(s));
      ok := GoOn(exit, scope, Resume(k));
      PassesTrans(first, looped, View(), Declared(s), {});
    }

    method CompileFor(s: Stmt, ghost scope: Scope, ghost inside: Option<Scope>, ghost k: Kont, ghost picks: Option<Picks>)
      returns (ok: bool)
      requires s.For? && At(scope) && !terminated && Fitting(s, scope, inside, k, picks) && Here(Enter(s, k))
      modifies this
      ensures ok ==> At(After(s, scope)) && Passes(old(View()), View(), Declared(s)) && Here(Resume(k))
      decreases s, 4
    {
      hide Inv, Grows, Tracked, Aiming, OnePlace, Distinct, Declared, WellScoped, After, Silent;
      ghost var start := View();
      LoopParts(s, k, spots, picks);
      ForParts(s, scope, inside, table, known);
      ok := CompileInit(s, scope, inside, k, picks);
      if !ok {
        return;
      }
      ghost var first := View();
      GrowsFrame(start, first);
      if terminated {
        SkipBody(s, scope, start);
        return true;
      }
      AimsGrow(start, first, k, picks);
      ok := CompileTurns(s, After(s.init, scope), inside, k, picks);
      if ok {
        PassesTrans(start, first, View(), Declared(s.init), Declared(s.body));
      }
    }

    /** The initialiser of a for statement. */
    method CompileInit(s: Stmt, ghost scope: Scope, ghost inside: Option<Scope>, ghost k: Kont, ghost picks: Option<Picks>)
      returns (ok: bool)
      requires s.For? && At(scope) && !terminated && Fitting(s, scope, inside, k, picks) && Here(Enter(s, k))
      modifies this
      ensures ok ==> At(After(s.init, scope)) && Passes(old(View()), View(), Declared(s.init)) && Here(Resume(Begin(s, k)))
      decreases s, 3
    {
      hide Inv, Grows, Tracked, Aiming, OnePlace, Distinct, Declared, WellScoped, After, Silent, DirectCode, Appended;
      ghost var start := View();
      LoopParts(s, k, spots, picks);
      ForParts(s, scope, inside, table, known);
      ForMoves(s, k, spots);
      Move(Enter(s.init, Begin(s, k)), scope);
      ghost var entered := View();
      GrowsFrame(start, entered);
      AimsGrow(start, entered, k, picks);
      AimsInside(entered, k, Begin(s, k), picks);
      ok := CompileStmt(s.init, scope, inside, Begin(s, k), picks);
      if ok {
        PassesTrans(start, entered, View(), {}, Declared(s.init));
      }
    }

    /** The initialiser has jumped away, which expressions and declarations do not. */
    ghost method SkipBody(s: Stmt, scope: Scope, start: Lowering)
      requires s.For? && At(After(s.init, scope)) && terminated && Declared(s.body) !! seen
      requires Passes(start, View(), Declared(s.init))
      modifies this`seen
      ensures At(After(s, scope)) && Passes(start, View(), Declared(s))
    {
      hide Inv, Grows, Tracked;
      ghost var first := View();
      ArraysSkipped(first, After(s.init, scope), Declared(s.body));
      SeenApart(first, seen + Declared(s.body));
      seen := seen + Declared(s.body);
      PassesTrans(start, first, View(), Declared(s.init), Declared(s.body));
    }

    /** What follows the initialiser, whose arrays stay in the list. */
    method CompileTurns(s: Stmt, ghost scope: Scope, ghost inside: Option<Scope>, ghost k: Kont, ghost picks: Option<Picks>)
      returns (ok: bool)
      requires s.For? && At(scope) && !terminated && Inside(inside) && Here(Resume(Begin(s, k)))
      requires Steady(s.body) && WellScoped(s.body, scope, inside, table, known) && Distinct(s.body) && Declared(s.body) !! seen
      requires Aiming(View(), k, picks) && OnePlace(s.body, Back(s, k), spots, picks)
      modifies this
      ensures Passes(old(View()), View(), Declared(s.body)) || !ok
      ensures ok ==> At(scope) && Here(Resume(k))
      decreases s, 3
    {
      hide Inv, Grows, Tracked, Aiming, OnePlace, Ends, Asks, Heard, Silent, Declared, WellScoped, Distinct, Steady;
      ghost var first := View();
      var header, bodyBlock, stepBlock, exit;
      ok, header, bodyBlock, stepBlock, exit := ForHeader(s, scope, k);
      if !ok {
        return;
      }
      ghost var split := View();
      GrowsFrame(first, split);
      AimsGrow(first, split, k, picks);
      ok := CompileLoopBody(bodyBlock, s.body, stepBlock, exit, scope, inside, k, picks, s);
      if !ok {
        return;
      }
      ghost var looped := View();
      GrowsFrame(split, looped);
      PassesTrans(first, split, looped, {}, Declared(s.body));
      StepTurns(s, k, header, starts, spots);
      ok := CloseLoop(stepBlock, s.step, Jump(header), exit, scope, s, k);
      PassesTrans(first, looped, View(), Declared(s.body), {});
    }

    /** The blocks of a for statement, up to its body. */
    method ForHeader(s: Stmt, ghost scope: Scope, ghost k: Kont)
      returns (ok: bool, header: nat, bodyBlock: nat, stepBlock: nat, exit: nat)
      requires s.For? && At(scope) && !terminated && Here(Resume(Begin(s, k)))
      modifies this`blocks, this`scopes, this`starts, this`marks, this`place, this`current, this`open
      ensures ok ==> Good(scope) && !open && Passes(old(View()), View(), {})
      ensures ok ==> ScopeAt(header, scope) && ScopeAt(bodyBlock, scope) && ScopeAt(stepBlock, scope) && ScopeAt(exit, scope)
      ensures ok ==> Beginning(header, Turn(s, k)) && Beginning(bodyBlock, Enter(s.body, Back(s, k)))
      ensures ok ==> Beginning(stepBlock, Again(s, k)) && Beginning(exit, Resume(k))
    {
      hide Inv, Grows, Tracked, Ends;
      ghost var first := View();
      InvShaped(first, scope);
      header, bodyBlock, stepBlock := CreateThree(scope, Place.At(Turn(s, k)), Place.At(Enter(s.body, Back(s, k))), Place.At(Again(s, k)));
      ghost var three := View();
      exit := CreateBlock(scope, scope, Place.At(Resume(k)));
      ghost var four := View();
      GrowsFrame(first, three);
      GrowsFrame(three, four);
      BeginEnds(s, k, header, starts, spots);
      EndHere(Jump(header), scope);
      ghost var jumped := View();
      GrowsFrame(four, jumped);
      ok := SwitchTo(header, scope);
      if !ok {
        return;
      }
      ghost var entered := View();
      GrowsFrame(jumped, entered);
      EndHeader(s, scope, k, bodyBlock, exit);
      GrowsFrame(entered, View());
      PassesTrans(first, three, four, {}, {});
      PassesTrans(first, four, jumped, {}, {});
      PassesTrans(first, jumped, entered, {}, {});
      PassesTrans(first, entered, View(), {}, {});
    }

    /** The condition of a for statement, if there is one. */
    method EndHeader(s: Stmt, ghost scope: Scope, ghost k: Kont, bodyBlock: nat, exit: nat)
      requires s.For? && Good(scope) && open && place == Place.At(Turn(s, k)) && ScopeAt(bodyBlock, scope) && ScopeAt(exit, scope)
      requires Beginning(bodyBlock, Enter(s.body, Back(s, k))) && Beginning(exit, Resume(k))
      modifies this`blocks, this`marks, this`place, this`open
      ensures Good(scope) && !open && Passes(old(View()), View(), {})
    {
      hide Inv, Grows, Tracked, Ends;
      ghost var first := View();
      if s.test.Some? {
        Evaluate(s.test.value, scope);
        ghost var evaluated := View();
        GrowsFrame(first, evaluated);
        BranchEnds(Turn(s, k), bodyBlock, exit, starts, spots);
        EndHere(Branch(bodyBlock, exit), scope);
        PassesTrans(first, evaluated, View(), {}, {});
      } else {
        StepEnds(Turn(s, k), bodyBlock, Enter(s.body, Back(s, k)), starts, spots);
        EndHere(Jump(bodyBlock), scope);
      }
    }

    method CompileSwitch(s: Stmt, ghost scope: Scope, ghost inside: Option<Scope>, ghost k: Kont, ghost picks: Option<Picks>)
      returns (ok: bool)
      requires s.Switch? && At(scope) && !terminated && Fitting(s, scope, inside, k, picks) && Here(Enter(s, k))
      modifies this
      ensures ok ==> At(scope) && Passes(old(View()), View(), Declared(s)) && Here(Resume(k))
      decreases s, 3
    {
      hide Inv, Grows, CasesKept, Tracked, Aiming, OnePlace, PicksAt, PicksOf;
      ghost var start := View();
      SwitchParts(s, k, spots, picks);
      var cases, exit;
      ok, cases, exit := SwitchHeader(s, scope, k);
      if !ok {
        return;
      }
      ghost var first := View();
      GrowsFrame(start, first);
      AimsGrow(start, first, k, picks);
      ok := SwitchBody(s.body, cases, exit, scope, k, picks, s);
      if !ok {
        return;
      }
      ghost var restored := View();
      GrowsFrame(first, restored);
      PassesTrans(start, first, restored, {}, Declared(s));
      ok := LeaveSwitch(exit, scope, k);
      PassesTrans(start, restored, View(), Declared(s), {});
    }

    /** The dispatch is finished, so only labels in the body start blocks. */
    method SwitchBody(body: Stmt, cases: Cases, exit: nat, ghost scope: Scope, ghost k: Kont, ghost picks: Option<Picks>,
                      ghost outer: Stmt) returns (ok: bool)
      requires body < outer && Good(scope) && !open && CasesKept(View(), cases, scope) && ScopeAt(exit, scope)
      requires Steady(body) && WellScoped(body, scope, Some(scope), table, known) && Distinct(body) && Declared(body) !! seen
      requires Aiming(View(), k, picks) && PicksAt(View(), cases, PicksOf(body, Leave(k))) && Beginning(exit, Resume(k))
      requires OnePlace(body, Leave(k), spots, Some(PicksOf(body, Leave(k))))
      modifies this
      ensures ok ==> At(scope) && Passes(old(View()), View(), Declared(body)) && Here(Resume(Leave(k)))
      decreases outer, 2
    {
      hide Inv, Grows, CasesKept, After, Tracked, Aiming, OnePlace, PicksAt, PicksOf, Declared, WellScoped, Distinct, DirectCode, Appended;
      ghost var first := View();
      AimsSwitch(first, k, picks, cases, PicksOf(body, Leave(k)), exit, scope);
      PushSwitch(cases, exit, scope);
      ghost var aimed := View();
      ok := CompileStmt(body, scope, Some(scope), Leave(k), Some(PicksOf(body, Leave(k))));
      if !ok {
        return;
      }
      SteadyAfter(body, scope);
      PopSwitch(first, aimed, scope);
    }

    /** What follows the comparisons is reached through the cases only. */
    method PushSwitch(cases: Cases, exit: nat, ghost scope: Scope)
      requires Good(scope) && !open && CasesKept(View(), cases, scope) && ScopeAt(exit, scope)
      modifies this`switchCases, this`breakTargets, this`insides, this`terminated
      ensures At(scope) && terminated && View() == InSwitch(old(View()), cases, exit, scope)
    {
      hide Inv, Tracked, CasesKept;
      ghost var inner := InSwitch(View(), cases, exit, scope);
      SwitchEntered(View(), scope, cases, exit);
      TargetsApart(View(), loopTargets, inner.breaks, inner.switches, inner.insides);
      switchCases := switchCases + [cases];
      breakTargets := breakTargets + [Exit(exit, |dynamicStack|)];
      insides := insides + [scope];
      terminated := true;
      assert View() == inner == Aimed(old(View()), loopTargets, inner.breaks, inner.switches, inner.insides);
    }

    method PopSwitch(ghost first: Lowering, ghost aimed: Lowering, ghost scope: Scope)
      requires At(scope) && Inv(first, scope) && Grows(aimed, View())
      requires aimed == Aimed(first, first.loops, aimed.breaks, aimed.switches, aimed.insides)
      requires |aimed.breaks| == |first.breaks| + 1 && |aimed.switches| == |first.switches| + 1 && |aimed.insides| == |first.insides| + 1
      requires first.breaks <= aimed.breaks && first.switches <= aimed.switches && first.insides <= aimed.insides
      modifies this`switchCases, this`breakTargets, this`insides
      ensures At(scope) && Grows(first, View()) && seen == old(seen)
    {
      hide Inv, Tracked, Grows;
      GrowsFrame(aimed, View());
      TargetsRestored(first, aimed, View(), scope);
      TargetsApart(View(), first.loops, first.breaks, first.switches, first.insides);
      breakTargets := breakTargets[..|breakTargets| - 1];
      switchCases := switchCases[..|switchCases| - 1];
      insides := insides[..|insides| - 1];
      assert View() == Aimed(old(View()), first.loops, first.breaks, first.switches, first.insides);
    }

    /** The case blocks, the exit and the comparisons. */
    method SwitchHeader(s: Stmt, ghost scope: Scope, ghost k: Kont) returns (ok: bool, cases: Cases, exit: nat)
      requires s.Switch? && At(scope) && !terminated && Here(Enter(s, k))
      modifies this`blocks, this`scopes, this`starts, this`marks, this`place, this`current, this`open
      ensures ok ==> Good(scope) && !open && Passes(old(View()), View(), {})
      ensures ok ==> CasesKept(View(), cases, scope) && ScopeAt(exit, scope)
      ensures ok ==> PicksAt(View(), cases, PicksOf(s.body, Leave(k))) && Beginning(exit, Resume(k))
    {
      hide Inv, Grows, CasesKept, Tracked, PicksAt;
      ghost var start := View();
      Evaluate(s.selector, scope);
      ghost var evaluated := View();
      GrowsFrame(start, evaluated);
      InvShaped(evaluated, scope);
      cases := CreateCases(s.body, scope, k);
      ghost var created := View();
      GrowsFrame(evaluated, created);
      InvShaped(created, scope);
      exit := CreateBlock(scope, scope, Place.At(Resume(k)));
      ghost var ready := View();
      GrowsFrame(created, ready);
      CasesStay(created, ready, cases, scope);
      PicksGrow(created, ready, cases, PicksOf(s.body, Leave(k)));
      ok := Dispatch(cases, exit, scope, PicksOf(s.body, Leave(k)), k);
      if !ok {
        return;
      }
      ghost var first := View();
      GrowsFrame(ready, first);
      CasesStay(ready, first, cases, scope);
      PicksGrow(ready, first, cases, PicksOf(s.body, Leave(k)));
      PassesTrans(start, evaluated, created, {}, {});
      PassesTrans(start, created, ready, {}, {});
      PassesTrans(start, ready, first, {}, {});
    }

    method LeaveSwitch(exit: nat, ghost scope: Scope, ghost k: Kont) returns (ok: bool)
      requires At(scope) && ScopeAt(exit, scope) && Here(Resume(Leave(k))) && Beginning(exit, Resume(k))
      modifies this`blocks, this`marks, this`place, this`current, this`open, this`terminated
      ensures Passes(old(View()), View(), {})
      ensures ok ==> At(scope) && Here(Resume(k))
    {
      hide Inv, Grows, Tracked, Ends;
      if !terminated {
        StepEnds(Resume(Leave(k)), exit, Resume(k), starts, spots);
        EndHere(Jump(exit), scope);
      } else {
        PassesSelf(View());
      }
      ghost var ended := View();
      GrowsFrame(old(View()), ended);
      ok := GoOn(exit, scope, Resume(k));
      PassesTrans(old(View()), ended, View(), {}, {});
    }

    /** One block for each case value, and one for the default. */
    method CreateCases(body: Stmt, ghost scope: Scope, ghost k: Kont) returns (cases: Cases)
      requires Good(scope) && Elements(scope) <= seen
      modifies this`blocks, this`scopes, this`starts, this`marks
      ensures Good(scope) && Passes(old(View()), View(), {}) && CasesKept(View(), cases, scope)
      ensures PicksAt(View(), cases, PicksOf(body, Leave(k)))
    {
      hide Inv, Grows, CasesKept, Tracked, CaseValues, CasePoints, HasDefault, DefaultPoint, PicksSoFar, PicksAt;
      var values := CaseValues(body);
      ghost var picks := PicksOf(body, Leave(k));
      CasesFound(body, Leave(k));
      assert HasDefault(body) <==> picks.default.Some?;
      cases := Cases(map[], None);
      NoCases(View(), scope);
      NoPicks(View(), picks);
      PassesSelf(View());
      for i := 0 to |values|
        invariant Good(scope) && Passes(old(View()), View(), {}) && CasesKept(View(), cases, scope)
        invariant cases.default == None && PicksSoFar(View(), cases, values[..i], picks)
      {
        if values[i] !in cases.values {
          ghost var before := View();
          CaseThere(body, Leave(k), values[i]);
          var block := CreateBlock(scope, scope, Place.At(picks.cases[values[i]]));
          GrowsFrame(before, View());
          PassesTrans(old(View()), before, View(), {}, {});
          CaseAdded(before, View(), cases, scope, values[i], block);
          PickAdded(before, View(), cases, values, i, picks, block);
          cases := cases.(values := cases.values[values[i] := block]);
        } else {
          PickKept(View(), View(), cases, values, i, picks);
        }
      }
      assert values[..|values|] == values;
      ghost var made := View();
      if HasDefault(body) {
        var block := CreateBlock(scope, scope, Place.At(picks.default.value));
        GrowsFrame(made, View());
        PassesTrans(old(View()), made, View(), {}, {});
        DefaultAdded(made, View(), cases, scope, block);
        PicksDone(made, View(), cases, body, Leave(k), Some(block));
        cases := cases.(default := Some(block));
      } else {
        PicksDone(made, made, cases, body, Leave(k), None);
      }
    }

    /** Compares the selector with the case values, in no particular order. */
    method Dispatch(cases: Cases, exit: nat, ghost scope: Scope, ghost picks: Picks, ghost k: Kont) returns (ok: bool)
      requires Good(scope) && open && CasesKept(View(), cases, scope) && ScopeAt(exit, scope)
      requires PicksAt(View(), cases, picks) && Beginning(exit, Resume(k))
      requires place == Selecting(picks.cases, if picks.default.Some? then picks.default.value else Resume(k))
      modifies this`blocks, this`scopes, this`starts, this`marks, this`place, this`current, this`open
      ensures ok ==> Good(scope) && !open && Passes(old(View()), View(), {})
    {
      hide Inv, Grows, CasesKept, Tracked, PicksAt, Ends;
      ghost var start := View();
      ghost var otherwise := if picks.default.Some? then picks.default.value else Resume(k);
      ghost var left := picks.cases;
      PassesSelf(start);
      PickBlocks(start, cases, picks);
      var remaining := cases.values.Keys;
      while remaining != {}
        invariant Good(scope) && open && CasesKept(View(), cases, scope) && ScopeAt(exit, scope)
        invariant remaining <= cases.values.Keys && Passes(start, View(), {})
        invariant PicksAt(View(), cases, picks) && Beginning(exit, Resume(k))
        invariant place == Selecting(left, otherwise) && left.Keys == remaining && left.Keys <= picks.cases.Keys
        invariant forall v :: v in left ==> left[v] == picks.cases[v]
        decreases |remaining|
      {
        ghost var before := View();
        SomeKey(remaining);
        var v :| v in remaining;
        remaining := remaining - {v};
        ok := Compare(cases, v, scope, picks, left, otherwise);
        if !ok {
          return;
        }
        left := left - {v};
        GrowsFrame(before, View());
        CasesStay(before, View(), cases, scope);
        PicksGrow(before, View(), cases, picks);
        PassesTrans(start, before, View(), {}, {});
      }
      ghost var before := View();
      CaseBlocks(before, cases, scope);
      PickBlocks(before, cases, picks);
      assert left == map[];
      OtherwiseEnds(otherwise, if cases.default.Some? then cases.default.value else exit, starts, spots);
      EndHere(Jump(if cases.default.Some? then cases.default.value else exit), scope);
      PassesTrans(start, before, View(), {}, {});
      ok := true;
    }

    method Compare(cases: Cases, v: int, ghost scope: Scope, ghost picks: Picks, ghost left: map<int, Point>, ghost otherwise: Point)
      returns (ok: bool)
      requires Good(scope) && open && CasesKept(View(), cases, scope) && v in cases.values
      requires PicksAt(View(), cases, picks) && place == Selecting(left, otherwise) && v in left && v in picks.cases
      requires left[v] == picks.cases[v]
      modifies this`blocks, this`scopes, this`starts, this`marks, this`place, this`current, this`open
      ensures ok ==> Good(scope) && open && Passes(old(View()), View(), {}) && place == Selecting(left - {v}, otherwise)
    {
      hide Inv, Grows, CasesKept, Tracked, PicksAt, Ends;
      ghost var start := View();
      InvShaped(start, scope);
      CaseBlocks(start, cases, scope);
      var next := CreateBlock(scope, scope, Selecting(left - {v}, otherwise));
      ghost var created := View();
      GrowsFrame(start, created);
      PicksGrow(start, created, cases, picks);
      MatchEnds(created, cases, picks, left, otherwise, v, next);
      EndHere(Match(v, cases.values[v], next), scope);
      ghost var ended := View();
      GrowsFrame(created, ended);
      ok := SwitchTo(next, scope);
      PassesTrans(start, created, ended, {}, {});
      PassesTrans(start, ended, View(), {}, {});
    }

    // -------------------------------------------------------------- the function

    /** record_label_dynamic_depths */
    method RecordLabels(s: Stmt, depth: nat)
      modifies this`labelDepths
      ensures labelDepths == old(labelDepths) + Prepass(s, depth)
      decreases s
    {
      hide PrepassBy;
      ghost var before := labelDepths;
      RecordedNone(before);
      match s
      case Compound(ss) =>
        RecordAll(ss, depth, s);
      case If(_, yes, no) =>
        RecordLabels(yes, depth);
        RecordedNone(labelDepths);
        Recorded(before, Prepass(yes, depth), if no.Some? then Prepass(no.value, depth) else map[]);
        if no.Some? {
          RecordLabels(no.value, depth);
        }
      case Do(body, _) => RecordLabels(body, depth);
      case While(_, body) => RecordLabels(body, depth);
      case For(init, _, _, body) =>
        var loopDepth := depth;
        RecordLabels(init, loopDepth);
        Recorded(before, Prepass(init, depth), Prepass(body, depth + Counted(init)));
        if init.Declare? {
          loopDepth := loopDepth + |init.arrays|;
        }
        RecordLabels(body, loopDepth);
      case Switch(_, body) => RecordLabels(body, depth);
      case Case(_, inner) => RecordLabels(inner, depth);
      case Default(inner) => RecordLabels(inner, depth);
      case Label(name, inner) =>
        labelDepths := labelDepths[name := depth];
        RecordedOne(before, name, depth);
        Recorded(before, map[name := depth], Prepass(inner, depth));
        RecordLabels(inner, depth);
      case _ =>
    }

    method RecordAll(ss: seq<Stmt>, depth0: nat, ghost whole: Stmt)
      requires whole == Compound(ss)
      modifies this`labelDepths
      ensures labelDepths == old(labelDepths) + PrepassBy(ss, |ss|, depth0)
      decreases whole, 0
    {
      hide Prepass;
      var depth := depth0;
      RecordedNone(labelDepths);
      for i := 0 to |ss|
        invariant depth == depth0 + CountedBy(ss, i)
        invariant labelDepths == old(labelDepths) + PrepassBy(ss, i, depth0)
      {
        RecordLabels(ss[i], depth);
        Recorded(old(labelDepths), PrepassBy(ss, i, depth0), Prepass(ss[i], depth));
        if ss[i].Declare? {
          depth := depth + |ss[i].arrays|;
        }
      }
    }

    /** The end of the body. */
    method Close(mayFall: bool, ghost body: seq<Stmt>) returns (ok: bool)
      requires At(top) && Here(Resume(Seq(body, |body|, Stop)))
      modifies this`blocks, this`marks, this`open
      ensures Good(top) && (ok ==> !open)
      ensures Passes(old(View()), View(), {})
      ensures mayFall && !terminated ==> ok && Appended(old(blocks), blocks, current, [Fall]) && |blocks| == |old(blocks)|
    {
      hide Inv, Grows, Tracked, Ends;
      PassesSelf(View());
      if terminated {
        return true;
      }
      if !mayFall {
        return false;
      }
      FallsWithTop(View());
      FallEnds(body, starts, spots);
      NoFrees();
      assert dynamicStack[|dynamicStack|..] == [] && [] + [Fall] == [Fall];
      End(|dynamicStack|, Fall, top);
      ok := true;
    }

    constructor ()
      ensures blocks == [[]] && current == 0 && !terminated && dynamicStack == [] && labels == map[] && labelDepths == map[]
      ensures loopTargets == [] && breakTargets == [] && switchCases == []
      ensures scopes == [[]] && seen == {} && done == {} && open && insides == []
    {
      blocks, current, terminated, dynamicStack := [[]], 0, false, [];
      labels, labelDepths := map[], map[];
      loopTargets, breakTargets, switchCases := [], [], [];
      scopes, seen, done, open, insides := [[]], {}, {}, true, [];
    }
  }

  /** Lowers a function body. Without an explicit return at its end a void function falls out;
      any other is refused, and so is code that jumps to a block never filled. */
  method CompileFunction(body: seq<Stmt>, mayFall: bool)
    returns (ok: bool, blocks: seq<seq<Instr>>, labels: map<string, nat>, ghost scopes: seq<Scope>, ghost done: set<Vla>)
    requires ObeysC(body) && DepthsAgree(body)
    ensures ok ==> Certified(blocks, scopes, done, AfterAll(body, |body|, []))
    ensures ok ==> forall name :: name in labels ==>
      && labels[name] < |scopes| && name in LabelsBy(body, |body|, [])
      && scopes[labels[name]] == LabelsBy(body, |body|, [])[name]
    ensures ok ==> forall trace, status :: CodeShows(blocks, trace, status) <==> BodyShows(body, trace, status)
    ensures OneDeclaration(body) && mayFall ==> ok && blocks == [Allocs(body[0].arrays) + [Fall]]
  {
    hide Inv, Certified, WellScoped, Permitted, Distinct, Declared, Passes, Grows, LabelsBy, AfterAll, Complete, PrepassBy;
    hide Tracked, Spots, OnePlace, Aiming, Follows, CodeShows, BodyShows, DepthsAgree, Start;
    BodyNests(body);
    BodyPlaces(body);
    var lowerer := new FunctionLowerer();
    blocks, labels, scopes, done := [], map[], [], {};
    ghost var table, top := LabelsBy(body, |body|, []), AfterAll(body, |body|, []);
    lowerer.table, lowerer.top, lowerer.known := table, top, Agreeing(body);
    lowerer.spots, lowerer.place := Spots(body), Place.At(Start(body));
    lowerer.starts, lowerer.marks := [Place.At(Start(body))], [[Place.At(Start(body))]];
    lowerer.RecordAll(body, 0, Compound(body));
    RecordedStart(body);
    ok := LowerBody(lowerer, body, mayFall);
    if !ok {
      return;
    }
    InvCertified(lowerer.View(), top);
    TrackedFollows(lowerer.View(), body);
    blocks, labels, scopes, done := lowerer.blocks, lowerer.labels, lowerer.scopes, lowerer.done;
    if OneDeclaration(body) && mayFall {
      OneBlock(lowerer.blocks, Allocs(body[0].arrays));
    }
    ok := Complete(blocks) && Closed(blocks[0]);
    if ok {
      forall trace, status
        ensures CodeShows(blocks, trace, status) <==> BodyShows(body, trace, status)
      {
        SameShown(blocks, scopes, done, top, lowerer.marks, lowerer.starts, body, trace, status);
      }
    }
  }

  /** The statements of the body, and its end. */
  method LowerBody(lowerer: FunctionLowerer, body: seq<Stmt>, mayFall: bool) returns (ok: bool)
    requires lowerer.blocks == [[]] && lowerer.current == 0 && !lowerer.terminated && lowerer.open
    requires lowerer.dynamicStack == [] && lowerer.labels == map[] && lowerer.scopes == [[]] && lowerer.seen == {} && lowerer.done == {}
    requires lowerer.loopTargets == [] && lowerer.breakTargets == [] && lowerer.switchCases == [] && lowerer.insides == []
    requires lowerer.table == LabelsBy(body, |body|, []) && lowerer.top == AfterAll(body, |body|, [])
    requires lowerer.labelDepths.Keys <= lowerer.table.Keys && lowerer.spots == Spots(body) && lowerer.table.Keys <= lowerer.spots.Keys
    requires forall name :: name in lowerer.table && name in lowerer.known ==>
      name in lowerer.labelDepths && lowerer.labelDepths[name] == |lowerer.table[name]|
    requires lowerer.place == Place.At(Start(body)) && lowerer.starts == [lowerer.place] && lowerer.marks == [[lowerer.place]]
    requires WellScoped(Compound(body), [], None, lowerer.table, lowerer.known) && Distinct(Compound(body))
    requires OnePlace(Compound(body), Stop, lowerer.spots, None)
    modifies lowerer
    ensures ok ==> Inv(lowerer.View(), lowerer.top) && Tracked(lowerer.View()) && !lowerer.open
    ensures ok ==> lowerer.top == old(lowerer.top) && lowerer.table == old(lowerer.table) && lowerer.spots == old(lowerer.spots)
    ensures ok ==> lowerer.starts != [] && lowerer.starts[0] == Place.At(Start(body))
    ensures OneDeclaration(body) && mayFall ==> ok && lowerer.blocks == [Allocs(body[0].arrays) + [Fall]]
  {
    hide Inv, WellScoped, Distinct, Declared, Passes, Grows, LabelsBy, AfterAll, Tracked, Spots, OnePlace, Aiming;
    ghost var start := lowerer.View();
    StartKept(start);
    StartTracked(start, body);
    lowerer.Move(Resume(Seq(body, 0, Stop)), []);
    ghost var entered := lowerer.View();
    PassesSeen(start, entered, {});
    GrowsFrame(start, entered);
    NoTargets(entered);
    ok := lowerer.CompileAll(body, [], None, Stop, None, Compound(body));
    if OneDeclaration(body) {
      assert [] + Allocs(body[0].arrays) == Allocs(body[0].arrays);
      assert ok && lowerer.blocks == [Allocs(body[0].arrays)];
    }
    if !ok {
      return;
    }
    ghost var compiled := lowerer.View();
    PassesSeen(entered, compiled, Declared(Compound(body)));
    GrowsFrame(entered, compiled);
    ok := lowerer.Close(mayFall, body);
    PassesSeen(compiled, lowerer.View(), {});
    GrowsFrame(compiled, lowerer.View());
  }

  // ---------------------------------------------------------------- what compiled functions do

  /** The body's own statements leave no arrays: neither its declarations nor the initialisers of its for statements. */
  predicate NoOuterArrays(body: seq<Stmt>) {
    forall i :: 0 <= i < |body| ==> LeftBy(body[i]) == []
  }

  lemma {:induction false} OuterArrays(body: seq<Stmt>, i: nat)
    requires i <= |body|
    ensures AfterAll(body, i, []) == [] <==> NoOuterArrays(body[..i])
  {
    hide After, LeftBy;
    if i > 0 {
      OuterArrays(body, i - 1);
      AfterLeft(body[i - 1], AfterAll(body, i - 1, []));
      assert body[..i] == body[..i - 1] + [body[i - 1]];
      assert body[..i][i - 1] == body[i - 1];
    }
  }

  /** Falling out of the end of a body, unlike a return statement, releases nothing: the arrays
      declared by the body's own statements are still on the stack. */
  lemma FallingOut(body: seq<Stmt>, blocks: seq<seq<Instr>>, scopes: seq<Scope>, done: set<Vla>, run: seq<Config>, k: nat)
    requires Certified(blocks, scopes, done, AfterAll(body, |body|, []))
    requires Run(blocks, run) && k < |run|
    requires Current(blocks, run[k]) && blocks[run[k].block][run[k].pc] == Fall
    ensures run[k].stack == AfterAll(body, |body|, [])
    ensures run[k].stack == [] <==> NoOuterArrays(body)
  {
    hide Certified, Run, AfterAll, NoOuterArrays;
    RunsBalanced(blocks, scopes, done, AfterAll(body, |body|, []), run, k);
    OuterArrays(body, |body|);
    assert body[..|body|] == body;
  }

  /** A body that declares arrays and ends is lowered to code that leaves them behind: what CompileFunction returns
      for it has a run that allocates one array and falls out of the function with it. */
  method FallingOutLeaks() returns (blocks: seq<seq<Instr>>)
    ensures blocks == [[Alloc(0), Fall]]
    ensures exists run :: Run(blocks, run) && LeavesArrays(blocks, run)
  {
    hide Certified, LabelsBy, AfterAll, ObeysC;
    var body, ok, labels := [Declare([0])], false, map[];
    DeclaredOnce();
    ghost var scopes, done;
    ok, blocks, labels, scopes, done := CompileFunction(body, true);
    assert Allocs([0]) == [Alloc(0)] && [Alloc(0)] + [Fall] == [Alloc(0), Fall];
    ghost var run := [Config(0, 0, [], 0), Config(0, 1, [0], 0)];
    assert Run(blocks, run) && LeavesArrays(blocks, run);
  }

  /** The run has reached the end of the body with arrays still allocated. */
  ghost predicate LeavesArrays(blocks: seq<seq<Instr>>, run: seq<Config>) {
    run != [] && var last := run[|run| - 1];
    Current(blocks, last) && blocks[last.block][last.pc] == Fall && last.stack != []
  }

  lemma DeclaredOnce()
    ensures ObeysC([Declare([0])]) && DepthsAgree([Declare([0])])
  {
    assert DeclaredBy([Declare([0])], 0) == {};
  }
}
