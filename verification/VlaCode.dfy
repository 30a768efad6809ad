/** The code that statement lowering emits, reduced to evaluations, allocations and jumps, and its runs.
    An evaluation may have any value; conditions and comparisons look at the value evaluated last. */
module VlaCode {

  /** A variable-length array, named by its declaration. */
  type Vla = nat

  /** An expression, named by its place in the program. */
  type ExprId = nat

  datatype Instr =
    | Alloc(vla: Vla)
    | Free(vla: Vla)
    | Eval(expr: ExprId)
    | Jump(target: nat)
    | Branch(yes: nat, no: nat)
    | Match(value: int, yes: nat, no: nat)
    | Return
    | Fall

  datatype Outcome = Stack(arrays: seq<Vla>) | Stuck

  predicate Terminator(i: Instr) {
    !i.Alloc? && !i.Free? && !i.Eval?
  }

  /** One allocation or release. Only the newest array can be released. */
  function Apply(i: Instr, st: seq<Vla>): Outcome {
    match i
    case Alloc(v) => Stack(st + [v])
    case Free(v) => if st != [] && st[|st| - 1] == v then Stack(st[..|st| - 1]) else Stuck
    case Eval(_) => Stack(st)
    case _ => Stuck
  }

  function Exec(code: seq<Instr>, st: seq<Vla>): Outcome {
    if code == [] then Stack(st)
    else
      var before := Exec(code[..|code| - 1], st);
      if before.Stuck? then Stuck else Apply(code[|code| - 1], before.arrays)
  }

  lemma ExecSnoc(code: seq<Instr>, i: Instr, st: seq<Vla>)
    ensures Exec(code + [i], st) == var r := Exec(code, st); if r.Stuck? then Stuck else Apply(i, r.arrays)
  {
    assert (code + [i])[..|code|] == code;
  }

  /** Releases of a list of arrays, newest first. */
  function Frees(arrays: seq<Vla>): (code: seq<Instr>)
    ensures |code| == |arrays|
  {
    if arrays == [] then [] else [Free(arrays[|arrays| - 1])] + Frees(arrays[..|arrays| - 1])
  }

  lemma PopLast(code: seq<Instr>, st: seq<Vla>, kept: seq<Vla>, gone: seq<Vla>)
    requires gone != [] && Exec(code, st) == Stack(kept + gone)
    ensures Exec(code + [Free(gone[|gone| - 1])], st) == Stack(kept + gone[..|gone| - 1])
  {
    hide Exec;
    ExecSnoc(code, Free(gone[|gone| - 1]), st);
    assert (kept + gone)[..|kept + gone| - 1] == kept + gone[..|gone| - 1];
  }

  lemma {:induction false} ExecFrees(code: seq<Instr>, st: seq<Vla>, kept: seq<Vla>, gone: seq<Vla>)
    requires Exec(code, st) == Stack(kept + gone)
    ensures Exec(code + Frees(gone), st) == Stack(kept)
    decreases |gone|
  {
    hide Exec, Apply;
    if gone == [] {
      assert code + Frees(gone) == code && kept + gone == kept;
    } else {
      var f, rest := Free(gone[|gone| - 1]), gone[..|gone| - 1];
      PopLast(code, st, kept, gone);
      ExecFrees(code + [f], st, kept, rest);
      assert code + ([f] + Frees(rest)) == (code + [f]) + Frees(rest);
    }
  }

  // ---------------------------------------------------------------- finished code

  predicate Closed(code: seq<Instr>) {
    code != [] && Terminator(code[|code| - 1])
  }

  /** Every jump goes to a block with an end. */
  predicate Complete(blocks: seq<seq<Instr>>) {
    forall b :: 0 <= b < |blocks| && Closed(blocks[b]) ==> Lands(blocks, blocks[b][|blocks[b]| - 1])
  }

  predicate Lands(blocks: seq<seq<Instr>>, i: Instr) {
    match i
    case Jump(t) => t < |blocks| && Closed(blocks[t])
    case Branch(t, u) => t < |blocks| && u < |blocks| && Closed(blocks[t]) && Closed(blocks[u])
    case Match(_, t, u) => t < |blocks| && u < |blocks| && Closed(blocks[t]) && Closed(blocks[u])
    case _ => true
  }

  /** All these arrays were really declared, not skipped as unreachable. */
  ghost predicate Clean(arrays: seq<Vla>, done: set<Vla>) {
    forall v :: v in arrays ==> v in done
  }

  /** A block ends with the arrays its successor expects, or with none. */
  ghost predicate EndsWell(i: Instr, st: seq<Vla>, scopes: seq<seq<Vla>>, top: seq<Vla>) {
    match i
    case Jump(t) => t < |scopes| && scopes[t] == st
    case Branch(t, u) => t < |scopes| && u < |scopes| && scopes[t] == st && scopes[u] == st
    case Match(_, t, u) => t < |scopes| && u < |scopes| && scopes[t] == st && scopes[u] == st
    case Return => st == []
    case Fall => st == top
    case _ => false
  }

  /** Entered with the arrays in its scope, a block keeps order and ends well. */
  ghost predicate Sound(code: seq<Instr>, scope: seq<Vla>, scopes: seq<seq<Vla>>, done: set<Vla>, top: seq<Vla>)
    requires code != []
  {
    Clean(scope, done) ==>
      var r := Exec(code[..|code| - 1], scope);
      r.Stack? && Clean(r.arrays, done) && EndsWell(code[|code| - 1], r.arrays, scopes, top)
  }

  ghost predicate Certified(blocks: seq<seq<Instr>>, scopes: seq<seq<Vla>>, done: set<Vla>, top: seq<Vla>) {
    && |scopes| == |blocks| > 0 && scopes[0] == [] && Closed(blocks[0]) && Complete(blocks)
    && forall b :: 0 <= b < |blocks| && Closed(blocks[b]) ==> Sound(blocks[b], scopes[b], scopes, done, top)
  }

  // ---------------------------------------------------------------- runs

  /** `value` is what was evaluated last. */
  datatype Config = Config(block: nat, pc: nat, stack: seq<Vla>, value: int)

  predicate Current(blocks: seq<seq<Instr>>, c: Config) {
    c.block < |blocks| && c.pc < |blocks[c.block]|
  }

  ghost predicate Step(blocks: seq<seq<Instr>>, c: Config, d: Config)
    requires Current(blocks, c)
  {
    match blocks[c.block][c.pc]
    case Jump(t) => d == Config(t, 0, c.stack, c.value)
    case Branch(t, u) => d == Config(if c.value != 0 then t else u, 0, c.stack, c.value)
    case Match(v, t, u) => d == Config(if c.value == v then t else u, 0, c.stack, c.value)
    case Return => false
    case Fall => false
    case Eval(_) => d == Config(c.block, c.pc + 1, c.stack, d.value)
    case i =>
      var r := Apply(i, c.stack);
      r.Stack? && d == Config(c.block, c.pc + 1, r.arrays, c.value)
  }

  ghost predicate Run(blocks: seq<seq<Instr>>, run: seq<Config>) {
    && run != [] && run[0] == Config(0, 0, [], 0)
    && forall k :: 0 <= k < |run| - 1 ==> Current(blocks, run[k]) && Step(blocks, run[k], run[k + 1])
  }

  /** What holds wherever a run may be. */
  ghost predicate Balanced(blocks: seq<seq<Instr>>, scopes: seq<seq<Vla>>, top: seq<Vla>, c: Config)
    requires |scopes| == |blocks|
  {
    && Current(blocks, c)
    && (c.pc == 0 ==> c.stack == scopes[c.block])
    && match blocks[c.block][c.pc]
       case Alloc(_) => true
       case Free(v) => c.stack != [] && c.stack[|c.stack| - 1] == v
       case Eval(_) => true
       case Jump(t) => t < |blocks| && c.stack == scopes[t]
       case Branch(t, u) => t < |blocks| && u < |blocks| && c.stack == scopes[t] == scopes[u]
       case Match(_, t, u) => t < |blocks| && u < |blocks| && c.stack == scopes[t] == scopes[u]
       case Return => c.stack == []
       case Fall => c.stack == top
  }

  /** The run is inside a block entered with the arrays in its scope. */
  ghost predicate Inside(blocks: seq<seq<Instr>>, scopes: seq<seq<Vla>>, done: set<Vla>, c: Config)
    requires |scopes| == |blocks|
  {
    && Current(blocks, c) && Closed(blocks[c.block]) && Clean(scopes[c.block], done)
    && Exec(blocks[c.block][..c.pc], scopes[c.block]) == Stack(c.stack)
  }

  lemma {:induction false} ExecPrefix(code: seq<Instr>, st: seq<Vla>, k: nat)
    requires k <= |code| && Exec(code, st).Stack?
    ensures Exec(code[..k], st).Stack?
    ensures k < |code| ==> Apply(code[k], Exec(code[..k], st).arrays).Stack?
    ensures k < |code| ==> Exec(code[..k + 1], st) == Apply(code[k], Exec(code[..k], st).arrays)
  {
    if k < |code| {
      var n := |code| - 1;
      assert code[..k + 1][..k] == code[..k];
      if k < n {
        ExecPrefix(code[..n], st, k);
        assert code[..n][..k] == code[..k] && code[..n][..k + 1] == code[..k + 1];
      } else {
        assert code[..n + 1] == code;
      }
    } else {
      assert code[..k] == code;
    }
  }

  /** Inside a certified block the next instruction can be executed. */
  lemma InsideBalanced(blocks: seq<seq<Instr>>, scopes: seq<seq<Vla>>, done: set<Vla>, top: seq<Vla>, c: Config)
    requires Certified(blocks, scopes, done, top) && Inside(blocks, scopes, done, c)
    ensures Balanced(blocks, scopes, top, c)
  {
    var code := blocks[c.block];
    var n := |code| - 1;
    assert Sound(code, scopes[c.block], scopes, done, top);
    if c.pc < n {
      assert code[..n][..c.pc] == code[..c.pc];
      ExecPrefix(code[..n], scopes[c.block], c.pc);
    }
  }

  lemma StepInside(blocks: seq<seq<Instr>>, scopes: seq<seq<Vla>>, done: set<Vla>, top: seq<Vla>, c: Config, d: Config)
    requires Certified(blocks, scopes, done, top) && Inside(blocks, scopes, done, c) && Step(blocks, c, d)
    ensures Inside(blocks, scopes, done, d)
  {
    var code := blocks[c.block];
    var n := |code| - 1;
    assert Sound(code, scopes[c.block], scopes, done, top);
    if c.pc < n {
      assert code[..n][..c.pc] == code[..c.pc] && code[..n][..c.pc + 1] == code[..c.pc + 1];
      ExecPrefix(code[..n], scopes[c.block], c.pc);
    } else {
      assert Lands(blocks, code[n]);
    }
  }

  /** Certified code releases arrays newest first and never one twice, enters every block with
      exactly the arrays in scope there, and returns with none left. */
  lemma {:induction false} RunsBalanced(blocks: seq<seq<Instr>>, scopes: seq<seq<Vla>>, done: set<Vla>, top: seq<Vla>,
                                        run: seq<Config>, k: nat)
    requires Certified(blocks, scopes, done, top) && Run(blocks, run) && k < |run|
    ensures Inside(blocks, scopes, done, run[k]) && Balanced(blocks, scopes, top, run[k])
  {
    if k == 0 {
      assert blocks[0][..0] == [];
    } else {
      RunsBalanced(blocks, scopes, done, top, run, k - 1);
      StepInside(blocks, scopes, done, top, run[k - 1], run[k]);
    }
    InsideBalanced(blocks, scopes, done, top, run[k]);
  }
}
