/** Statements with variable-length arrays, which of them are in scope where, and the constraints
    of sections 6.8.6.1 and 6.8.4.2 of C99 on jumps. */
module VlaProgram {
  import opened Options
  import opened VlaCode

  /** Expressions are named, and a declaration lists its variable-length arrays. */
  datatype Stmt =
    | Compound(stmts: seq<Stmt>)
    | Declare(arrays: seq<Vla>)
    | Expr(expr: ExprId)
    | ReturnStmt(result: Option<ExprId>)
    | If(condition: ExprId, yes: Stmt, no: Option<Stmt>)
    | Do(body: Stmt, condition: ExprId)
    | While(condition: ExprId, body: Stmt)
    | For(init: Stmt, test: Option<ExprId>, step: Option<ExprId>, body: Stmt)
    | Switch(selector: ExprId, body: Stmt)
    | Case(value: int, inner: Stmt)
    | Default(inner: Stmt)
    | Label(name: string, inner: Stmt)
    | Goto(name: string)
    | Break
    | Continue

  /** The arrays in scope, oldest first. Scopes nest, so one list is a prefix of another exactly
      when its arrays are all in scope there. */
  type Scope = seq<Vla>

  /** What a statement leaves in the list of its block: a declaration, or the initialiser of a for statement, which
      lowering does not take back when the loop ends. */
  function After(s: Stmt, scope: Scope): (r: Scope)
    ensures scope <= r
  {
    match s
    case Declare(arrays) => scope + arrays
    case For(init, _, _, _) => After(init, scope)
    case Case(_, inner) => After(inner, scope)
    case Default(inner) => After(inner, scope)
    case Label(_, inner) => After(inner, scope)
    case _ => scope
  }

  /** The arrays that it leaves. */
  function LeftBy(s: Stmt): Scope {
    match s
    case Declare(arrays) => arrays
    case For(init, _, _, _) => LeftBy(init)
    case Case(_, inner) => LeftBy(inner)
    case Default(inner) => LeftBy(inner)
    case Label(_, inner) => LeftBy(inner)
    case _ => []
  }

  lemma {:induction false} AfterLeft(s: Stmt, scope: Scope)
    ensures After(s, scope) == scope + LeftBy(s)
  {
    match s
    case For(init, _, _, _) => AfterLeft(init, scope);
    case Case(_, inner) => AfterLeft(inner, scope);
    case Default(inner) => AfterLeft(inner, scope);
    case Label(_, inner) => AfterLeft(inner, scope);
    case _ =>
  }

  /** The scope after the first i statements. */
  function AfterAll(ss: seq<Stmt>, i: nat, scope: Scope): (r: Scope)
    requires i <= |ss|
    ensures scope <= r
  {
    if i == 0 then scope else After(ss[i - 1], AfterAll(ss, i - 1, scope))
  }

  // ---------------------------------------------------------------- declared arrays

  function Elements(arrays: seq<Vla>): set<Vla> {
    set v | v in arrays
  }

  function Declared(s: Stmt): set<Vla> {
    match s
    case Compound(ss) => set i, v | 0 <= i < |ss| && v in Declared(ss[i]) :: v
    case Declare(arrays) => Elements(arrays)
    case If(_, yes, no) => Declared(yes) + if no.Some? then Declared(no.value) else {}
    case Do(body, _) => Declared(body)
    case While(_, body) => Declared(body)
    case For(init, _, _, body) => Declared(init) + Declared(body)
    case Switch(_, body) => Declared(body)
    case Case(_, inner) => Declared(inner)
    case Default(inner) => Declared(inner)
    case Label(_, inner) => Declared(inner)
    case _ => {}
  }

  lemma {:induction false} LeftDeclared(s: Stmt)
    ensures Elements(LeftBy(s)) <= Declared(s)
  {
    match s
    case For(init, _, _, _) => LeftDeclared(init);
    case Case(_, inner) => LeftDeclared(inner);
    case Default(inner) => LeftDeclared(inner);
    case Label(_, inner) => LeftDeclared(inner);
    case _ =>
  }

  /** Arrays declared by the first i statements. */
  function DeclaredBy(ss: seq<Stmt>, i: nat): set<Vla>
    requires i <= |ss|
  {
    if i == 0 then {} else DeclaredBy(ss, i - 1) + Declared(ss[i - 1])
  }

  lemma {:induction false} DeclaredMember(ss: seq<Stmt>, i: nat)
    requires i <= |ss|
    ensures forall v :: v in DeclaredBy(ss, i) <==> exists k :: 0 <= k < i && v in Declared(ss[k])
  {
    if i > 0 {
      DeclaredMember(ss, i - 1);
    }
  }

  lemma DeclaredCompound(ss: seq<Stmt>)
    ensures DeclaredBy(ss, |ss|) == Declared(Compound(ss))
  {
    DeclaredMember(ss, |ss|);
  }

  /** Each declaration declares arrays of its own. */
  predicate Distinct(s: Stmt) {
    match s
    case Compound(ss) =>
      && (forall i :: 0 <= i < |ss| ==> Distinct(ss[i]))
      && forall i :: 0 <= i < |ss| ==> DeclaredBy(ss, i) !! Declared(ss[i])
    case Declare(arrays) => forall i, j :: 0 <= i < j < |arrays| ==> arrays[i] != arrays[j]
    case If(_, yes, no) => Distinct(yes) && (no.Some? ==> Distinct(no.value) && Declared(yes) !! Declared(no.value))
    case Do(body, _) => Distinct(body)
    case While(_, body) => Distinct(body)
    case For(init, _, _, body) => Distinct(init) && Distinct(body) && Declared(init) !! Declared(body)
    case Switch(_, body) => Distinct(body)
    case Case(_, inner) => Distinct(inner)
    case Default(inner) => Distinct(inner)
    case Label(_, inner) => Distinct(inner)
    case _ => true
  }

  // ---------------------------------------------------------------- labels

  /** The scope at each label. */
  function Labels(s: Stmt, scope: Scope): map<string, Scope> {
    match s
    case Compound(ss) => LabelsBy(ss, |ss|, scope)
    case If(_, yes, no) => Labels(yes, scope) + if no.Some? then Labels(no.value, scope) else map[]
    case Do(body, _) => Labels(body, scope)
    case While(_, body) => Labels(body, scope)
    case For(init, _, _, body) => Labels(init, scope) + Labels(body, After(init, scope))
    case Switch(_, body) => Labels(body, scope)
    case Case(_, inner) => Labels(inner, scope)
    case Default(inner) => Labels(inner, scope)
    case Label(name, inner) => map[name := scope] + Labels(inner, scope)
    case _ => map[]
  }

  function LabelsBy(ss: seq<Stmt>, i: nat, scope: Scope): map<string, Scope>
    requires i <= |ss|
    decreases ss, i
  {
    if i == 0 then map[] else LabelsBy(ss, i - 1, scope) + Labels(ss[i - 1], AfterAll(ss, i - 1, scope))
  }

  /** record_label_dynamic_depths: the depth at each label, where the initialiser of a for statement counts in its body
      alone. */
  function Prepass(s: Stmt, depth: nat): map<string, nat> {
    match s
    case Compound(ss) => PrepassBy(ss, |ss|, depth)
    case If(_, yes, no) => Prepass(yes, depth) + if no.Some? then Prepass(no.value, depth) else map[]
    case Do(body, _) => Prepass(body, depth)
    case While(_, body) => Prepass(body, depth)
    case For(init, _, _, body) => Prepass(init, depth) + Prepass(body, depth + Counted(init))
    case Switch(_, body) => Prepass(body, depth)
    case Case(_, inner) => Prepass(inner, depth)
    case Default(inner) => Prepass(inner, depth)
    case Label(name, inner) => map[name := depth] + Prepass(inner, depth)
    case _ => map[]
  }

  function PrepassBy(ss: seq<Stmt>, i: nat, depth: nat): map<string, nat>
    requires i <= |ss|
    decreases ss, i
  {
    if i == 0 then map[] else PrepassBy(ss, i - 1, depth) + Prepass(ss[i - 1], depth + CountedBy(ss, i - 1))
  }

  /** Arrays that the prepass counts for what follows a statement in its block. */
  function Counted(s: Stmt): nat {
    if s.Declare? then |s.arrays| else 0
  }

  function CountedBy(ss: seq<Stmt>, i: nat): nat
    requires i <= |ss|
  {
    if i == 0 then 0 else CountedBy(ss, i - 1) + Counted(ss[i - 1])
  }

  /** Recording the labels of one part after another. */
  lemma Recorded(m: map<string, nat>, a: map<string, nat>, b: map<string, nat>)
    ensures m + a + b == m + (a + b)
  {
  }

  lemma RecordedOne(m: map<string, nat>, name: string, depth: nat)
    ensures m[name := depth] == m + map[name := depth]
  {
  }

  lemma RecordedNone(m: map<string, nat>)
    ensures m + map[] == m
  {
  }

  // ---------------------------------------------------------------- switches

  /** The case values of a switch body; a nested switch keeps its own. */
  function CaseValues(s: Stmt): seq<int> {
    match s
    case Compound(ss) => CaseValuesBy(ss, |ss|)
    case If(_, yes, no) => CaseValues(yes) + if no.Some? then CaseValues(no.value) else []
    case Do(body, _) => CaseValues(body)
    case While(_, body) => CaseValues(body)
    case For(_, _, _, body) => CaseValues(body)
    case Case(value, inner) => [value] + CaseValues(inner)
    case Default(inner) => CaseValues(inner)
    case Label(_, inner) => CaseValues(inner)
    case _ => []
  }

  function CaseValuesBy(ss: seq<Stmt>, i: nat): seq<int>
    requires i <= |ss|
    decreases ss, i
  {
    if i == 0 then [] else CaseValuesBy(ss, i - 1) + CaseValues(ss[i - 1])
  }

  predicate HasDefault(s: Stmt) {
    match s
    case Compound(ss) => exists i :: 0 <= i < |ss| && HasDefault(ss[i])
    case If(_, yes, no) => HasDefault(yes) || (no.Some? && HasDefault(no.value))
    case Do(body, _) => HasDefault(body)
    case While(_, body) => HasDefault(body)
    case For(_, _, _, body) => HasDefault(body)
    case Case(_, inner) => HasDefault(inner)
    case Default(_) => true
    case Label(_, inner) => HasDefault(inner)
    case _ => false
  }

  // ---------------------------------------------------------------- constraints

  /** A statement that leaves no arrays in the list, as the parts of other statements must not. */
  predicate Steady(s: Stmt) {
    match s
    case Declare(_) => false
    case For(init, _, _, _) => LeftBy(init) == []
    case Case(_, inner) => Steady(inner)
    case Default(inner) => Steady(inner)
    case Label(_, inner) => Steady(inner)
    case _ => true
  }

  lemma {:induction false} SteadyAfter(s: Stmt, scope: Scope)
    requires Steady(s)
    ensures After(s, scope) == scope
  {
    match s
    case For(init, _, _, _) => AfterLeft(init, scope);
    case Case(_, inner) => SteadyAfter(inner, scope);
    case Default(inner) => SteadyAfter(inner, scope);
    case Label(_, inner) => SteadyAfter(inner, scope);
    case _ =>
  }

  /** The initialiser of a for statement is an expression or a declaration. */
  predicate Initialiser(s: Stmt) {
    s.Expr? || s.Declare?
  }

  /** No goto or case enters the scope of an array, labels are where the table says, and a goto aims at labels whose
      depth is known. `inside` is the scope of the enclosing switch. */
  predicate WellScoped(s: Stmt, scope: Scope, inside: Option<Scope>, labels: map<string, Scope>, known: set<string>) {
    match s
    case Compound(ss) => forall i :: 0 <= i < |ss| ==> WellScoped(ss[i], AfterAll(ss, i, scope), inside, labels, known)
    case If(_, yes, no) =>
      && Steady(yes) && WellScoped(yes, scope, inside, labels, known)
      && (no.Some? ==> Steady(no.value) && WellScoped(no.value, scope, inside, labels, known))
    case Do(body, _) => Steady(body) && WellScoped(body, scope, inside, labels, known)
    case While(_, body) => Steady(body) && WellScoped(body, scope, inside, labels, known)
    case For(init, _, _, body) =>
      Initialiser(init) && Steady(body) && WellScoped(body, After(init, scope), inside, labels, known)
    case Switch(_, body) => Steady(body) && WellScoped(body, scope, Some(scope), labels, known)
    case Case(_, inner) =>
      !inner.Declare? && WellScoped(inner, scope, inside, labels, known) && (inside.Some? ==> inside.value == scope)
    case Default(inner) =>
      !inner.Declare? && WellScoped(inner, scope, inside, labels, known) && (inside.Some? ==> inside.value == scope)
    case Label(name, inner) =>
      !inner.Declare? && name in labels && labels[name] == scope && WellScoped(inner, scope, inside, labels, known)
    case Goto(name) => name in labels ==> labels[name] <= scope && name in known
    case _ => true
  }

  /** The prepass records the labels of the table. */
  lemma {:induction false} PrepassKeys(s: Stmt, scope: Scope, depth: nat)
    ensures Prepass(s, depth).Keys == Labels(s, scope).Keys
    decreases s, 0
  {
    match s
    case Compound(ss) => PrepassByKeys(ss, |ss|, scope, depth, s);
    case If(_, yes, no) =>
      PrepassKeys(yes, scope, depth);
      if no.Some? {
        PrepassKeys(no.value, scope, depth);
      }
    case Do(body, _) => PrepassKeys(body, scope, depth);
    case While(_, body) => PrepassKeys(body, scope, depth);
    case For(init, _, _, body) =>
      PrepassKeys(init, scope, depth);
      PrepassKeys(body, After(init, scope), depth + Counted(init));
    case Switch(_, body) => PrepassKeys(body, scope, depth);
    case Case(_, inner) => PrepassKeys(inner, scope, depth);
    case Default(inner) => PrepassKeys(inner, scope, depth);
    case Label(_, inner) => PrepassKeys(inner, scope, depth);
    case _ =>
  }

  lemma {:induction false} PrepassByKeys(ss: seq<Stmt>, i: nat, scope: Scope, depth: nat, whole: Stmt)
    requires whole == Compound(ss) && i <= |ss|
    ensures PrepassBy(ss, i, depth).Keys == LabelsBy(ss, i, scope).Keys
    decreases whole, 0, i
  {
    if i > 0 {
      PrepassByKeys(ss, i - 1, scope, depth, whole);
      PrepassKeys(ss[i - 1], AfterAll(ss, i - 1, scope), depth + CountedBy(ss, i - 1));
    }
  }

  lemma RecordedStart(body: seq<Stmt>)
    ensures map[] + PrepassBy(body, |body|, 0) == PrepassBy(body, |body|, 0)
    ensures PrepassBy(body, |body|, 0).Keys == LabelsBy(body, |body|, []).Keys
  {
    PrepassByKeys(body, |body|, [], 0, Compound(body));
  }
}

/** The constraints of C99, stated on sets of arrays in scope, imply the nesting of scopes that
    lowering relies on. */
module VlaScopes {
  import opened Options
  import opened VlaCode
  import opened VlaProgram
  import opened VlaMeaning

  /** Sections 6.8.6.1 and 6.8.4.2 of C99: a goto does not enter the scope of an array, and an
      array whose scope holds a case label has the whole switch in its scope. The arrays of a for
      statement's initialiser count as in scope up to the end of the block. */
  predicate Permitted(s: Stmt, scope: Scope, inside: Option<Scope>, labels: map<string, Scope>) {
    match s
    case Compound(ss) => forall i :: 0 <= i < |ss| ==> Permitted(ss[i], AfterAll(ss, i, scope), inside, labels)
    case If(_, yes, no) =>
      && Steady(yes) && Permitted(yes, scope, inside, labels)
      && (no.Some? ==> Steady(no.value) && Permitted(no.value, scope, inside, labels))
    case Do(body, _) => Steady(body) && Permitted(body, scope, inside, labels)
    case While(_, body) => Steady(body) && Permitted(body, scope, inside, labels)
    case For(init, _, _, body) => Initialiser(init) && Steady(body) && Permitted(body, After(init, scope), inside, labels)
    case Switch(_, body) => Steady(body) && Permitted(body, scope, Some(scope), labels)
    case Case(_, inner) => !inner.Declare? && Permitted(inner, scope, inside, labels) && SwitchCovers(scope, inside)
    case Default(inner) => !inner.Declare? && Permitted(inner, scope, inside, labels) && SwitchCovers(scope, inside)
    case Label(name, inner) =>
      !inner.Declare? && name in labels && labels[name] == scope && Permitted(inner, scope, inside, labels)
    case Goto(name) => name in labels ==> Elements(labels[name]) <= Elements(scope)
    case _ => true
  }

  predicate SwitchCovers(scope: Scope, inside: Option<Scope>) {
    inside.Some? ==> Elements(scope) <= Elements(inside.value)
  }

  /** A function body that obeys the constraints; every label names one place. */
  predicate ObeysC(body: seq<Stmt>) {
    && Distinct(Compound(body)) && Permitted(Compound(body), [], None, LabelsBy(body, |body|, []))
    && OnePlace(Compound(body), Stop, Spots(body), None)
  }

  /** Every goto aims at one of these labels. */
  predicate Aims(s: Stmt, labels: map<string, Scope>, known: set<string>) {
    match s
    case Compound(ss) => forall i :: 0 <= i < |ss| ==> Aims(ss[i], labels, known)
    case If(_, yes, no) => Aims(yes, labels, known) && (no.Some? ==> Aims(no.value, labels, known))
    case Do(body, _) => Aims(body, labels, known)
    case While(_, body) => Aims(body, labels, known)
    case For(_, _, _, body) => Aims(body, labels, known)
    case Switch(_, body) => Aims(body, labels, known)
    case Case(_, inner) => Aims(inner, labels, known)
    case Default(inner) => Aims(inner, labels, known)
    case Label(_, inner) => Aims(inner, labels, known)
    case Goto(name) => name in labels ==> name in known
    case _ => true
  }

  /** The labels for which the prepass finds the number of arrays in the list. */
  function Agreeing(body: seq<Stmt>): (names: set<string>)
    ensures forall name :: name in names <==>
      && name in LabelsBy(body, |body|, []) && name in PrepassBy(body, |body|, 0)
      && PrepassBy(body, |body|, 0)[name] == |LabelsBy(body, |body|, [])[name]|
  {
    set name | name in LabelsBy(body, |body|, []) && name in PrepassBy(body, |body|, 0)
             && PrepassBy(body, |body|, 0)[name] == |LabelsBy(body, |body|, [])[name]|
  }

  predicate DepthsAgree(body: seq<Stmt>) {
    Aims(Compound(body), LabelsBy(body, |body|, []), Agreeing(body))
  }

  // ---------------------------------------------------------------- where arrays are declared

  /** The scope in front of each declaration. */
  function Roots(s: Stmt, scope: Scope): (m: map<Vla, Scope>)
    ensures m.Keys == Declared(s)
  {
    match s
    case Compound(ss) => DeclaredCompound(ss); RootsBy(ss, |ss|, scope)
    case Declare(arrays) => map v | v in Elements(arrays) :: scope + arrays[..First(arrays, v)]
    case If(_, yes, no) => Roots(yes, scope) + if no.Some? then Roots(no.value, scope) else map[]
    case Do(body, _) => Roots(body, scope)
    case While(_, body) => Roots(body, scope)
    case For(init, _, _, body) => Roots(init, scope) + Roots(body, After(init, scope))
    case Switch(_, body) => Roots(body, scope)
    case Case(_, inner) => Roots(inner, scope)
    case Default(inner) => Roots(inner, scope)
    case Label(_, inner) => Roots(inner, scope)
    case _ => map[]
  }

  function RootsBy(ss: seq<Stmt>, i: nat, scope: Scope): (m: map<Vla, Scope>)
    requires i <= |ss|
    ensures m.Keys == DeclaredBy(ss, i)
    decreases ss, i
  {
    if i == 0 then map[] else RootsBy(ss, i - 1, scope) + Roots(ss[i - 1], AfterAll(ss, i - 1, scope))
  }

  function First(arrays: Scope, v: Vla): (i: nat)
    requires v in arrays
    ensures i < |arrays| && arrays[i] == v
  {
    if arrays[0] == v then 0 else 1 + First(arrays[1..], v)
  }

  /** Every array of a scope is preceded by the same arrays as its declaration. */
  ghost predicate Rooted(scope: Scope, roots: map<Vla, Scope>) {
    forall i :: 0 <= i < |scope| ==> scope[i] in roots && roots[scope[i]] == scope[..i]
  }

  ghost predicate Agrees(part: map<Vla, Scope>, roots: map<Vla, Scope>) {
    forall v :: v in part ==> v in roots && roots[v] == part[v]
  }

  lemma {:induction false} RootedAfter(s: Stmt, scope: Scope, roots: map<Vla, Scope>)
    requires Distinct(s) && Rooted(scope, roots) && Agrees(Roots(s, scope), roots)
    ensures Rooted(After(s, scope), roots)
  {
    match s
    case Declare(arrays) => RootedDeclared(arrays, scope, roots);
    case For(init, _, _, body) =>
      UnionAgrees(Roots(init, scope), Roots(body, After(init, scope)));
      AgreesTrans(Roots(init, scope), Roots(s, scope), roots);
      RootedAfter(init, scope, roots);
    case Case(_, inner) => RootedAfter(inner, scope, roots);
    case Default(inner) => RootedAfter(inner, scope, roots);
    case Label(_, inner) => RootedAfter(inner, scope, roots);
    case _ =>
  }

  lemma RootedDeclared(arrays: Scope, scope: Scope, roots: map<Vla, Scope>)
    requires Distinct(Declare(arrays)) && Rooted(scope, roots) && Agrees(Roots(Declare(arrays), scope), roots)
    ensures Rooted(scope + arrays, roots)
  {
    var wide := scope + arrays;
    forall i | 0 <= i < |wide|
      ensures wide[i] in roots && roots[wide[i]] == wide[..i]
    {
      if i < |scope| {
        assert wide[..i] == scope[..i];
      } else {
        var k := i - |scope|;
        assert wide[i] == arrays[k] && arrays[k] in Elements(arrays);
        assert First(arrays, arrays[k]) == k;
        assert wide[..i] == scope + arrays[..k];
      }
    }
  }

  lemma AgreesTrans(a: map<Vla, Scope>, b: map<Vla, Scope>, c: map<Vla, Scope>)
    requires Agrees(a, b) && Agrees(b, c)
    ensures Agrees(a, c)
  {
  }

  lemma UnionAgrees(a: map<Vla, Scope>, b: map<Vla, Scope>)
    requires a.Keys !! b.Keys
    ensures Agrees(a, a + b) && Agrees(b, a + b)
  {
  }

  lemma DistinctPart(ss: seq<Stmt>, i: nat)
    requires i < |ss| && Distinct(Compound(ss))
    ensures Distinct(ss[i]) && DeclaredBy(ss, i) !! Declared(ss[i])
  {
  }

  lemma {:induction false} RootsByPart(ss: seq<Stmt>, i: nat, n: nat, scope: Scope)
    requires i < n <= |ss| && Distinct(Compound(ss))
    ensures Agrees(Roots(ss[i], AfterAll(ss, i, scope)), RootsBy(ss, n, scope))
    decreases n
  {
    hide Roots, Distinct, Declared, DeclaredBy, AfterAll, Agrees;
    DistinctPart(ss, n - 1);
    UnionAgrees(RootsBy(ss, n - 1, scope), Roots(ss[n - 1], AfterAll(ss, n - 1, scope)));
    if i < n - 1 {
      RootsByPart(ss, i, n - 1, scope);
      AgreesTrans(Roots(ss[i], AfterAll(ss, i, scope)), RootsBy(ss, n - 1, scope), RootsBy(ss, n, scope));
    }
  }

  /** A statement of a block: its own arrays, and its scope. */
  lemma CompoundRoots(ss: seq<Stmt>, i: nat, scope: Scope, roots: map<Vla, Scope>)
    requires i < |ss| && Distinct(Compound(ss)) && Agrees(Roots(Compound(ss), scope), roots)
    ensures Distinct(ss[i]) && Agrees(Roots(ss[i], AfterAll(ss, i, scope)), roots)
  {
    hide Distinct, Declared, DeclaredBy, AfterAll, Agrees, RootsBy;
    DistinctPart(ss, i);
    RootsByPart(ss, i, |ss|, scope);
    AgreesTrans(Roots(ss[i], AfterAll(ss, i, scope)), RootsBy(ss, |ss|, scope), roots);
  }

  lemma {:induction false} RootedAll(ss: seq<Stmt>, i: nat, scope: Scope, roots: map<Vla, Scope>)
    requires i <= |ss| && Distinct(Compound(ss)) && Rooted(scope, roots) && Agrees(Roots(Compound(ss), scope), roots)
    ensures Rooted(AfterAll(ss, i, scope), roots)
  {
    hide Distinct, Roots, Agrees, Rooted, After;
    if i > 0 {
      RootedAll(ss, i - 1, scope, roots);
      CompoundRoots(ss, i - 1, scope, roots);
      RootedAfter(ss[i - 1], AfterAll(ss, i - 1, scope), roots);
    }
  }

  /** Scopes nest: a scope whose arrays are all in another is a prefix of it. */
  lemma {:induction false} Nested(part: Scope, scope: Scope, roots: map<Vla, Scope>)
    requires Rooted(part, roots) && Rooted(scope, roots) && Elements(part) <= Elements(scope)
    ensures part <= scope
  {
    if part != [] {
      var n := |part| - 1;
      assert part[n] in Elements(part);
      var k :| 0 <= k < |scope| && scope[k] == part[n];
      assert scope[..k] == part[..n];
      assert part == part[..n] + [part[n]];
    }
  }

  // ---------------------------------------------------------------- every label is rooted

  ghost predicate AllRooted(labels: map<string, Scope>, roots: map<Vla, Scope>) {
    forall name :: name in labels ==> Rooted(labels[name], roots)
  }

  lemma {:induction false} LabelsRooted(s: Stmt, scope: Scope, roots: map<Vla, Scope>)
    requires Distinct(s) && Rooted(scope, roots) && Agrees(Roots(s, scope), roots)
    ensures AllRooted(Labels(s, scope), roots)
    decreases s
  {
    hide Rooted;
    match s
    case Compound(ss) => LabelsByRooted(ss, |ss|, scope, roots, s);
    case If(_, yes, no) =>
      LabelsRooted(yes, scope, roots);
      if no.Some? {
        LabelsRooted(no.value, scope, roots);
      }
    case Do(body, _) => LabelsRooted(body, scope, roots);
    case While(_, body) => LabelsRooted(body, scope, roots);
    case For(init, _, _, body) =>
      LabelsRooted(init, scope, roots);
      RootedAfter(init, scope, roots);
      LabelsRooted(body, After(init, scope), roots);
    case Switch(_, body) => LabelsRooted(body, scope, roots);
    case Case(_, inner) => LabelsRooted(inner, scope, roots);
    case Default(inner) => LabelsRooted(inner, scope, roots);
    case Label(_, inner) => LabelsRooted(inner, scope, roots);
    case _ =>
  }

  lemma {:induction false} LabelsByRooted(ss: seq<Stmt>, i: nat, scope: Scope, roots: map<Vla, Scope>, whole: Stmt)
    requires whole == Compound(ss) && i <= |ss|
    requires Distinct(whole) && Rooted(scope, roots) && Agrees(Roots(whole, scope), roots)
    ensures AllRooted(LabelsBy(ss, i, scope), roots)
    decreases whole, i
  {
    hide Rooted, Distinct, Roots, Agrees, Labels, AfterAll;
    if i > 0 {
      LabelsByRooted(ss, i - 1, scope, roots, whole);
      RootedAll(ss, i - 1, scope, roots);
      CompoundRoots(ss, i - 1, scope, roots);
      LabelsRooted(ss[i - 1], AfterAll(ss, i - 1, scope), roots);
    }
  }

  // ---------------------------------------------------------------- the constraints imply nesting

  lemma {:induction false} PermittedNests(s: Stmt, scope: Scope, inside: Option<Scope>, labels: map<string, Scope>,
                                          roots: map<Vla, Scope>, known: set<string>)
    requires Permitted(s, scope, inside, labels) && Aims(s, labels, known) && Distinct(s) && AllRooted(labels, roots)
    requires Rooted(scope, roots) && Agrees(Roots(s, scope), roots)
    requires inside.Some? ==> Rooted(inside.value, roots) && inside.value <= scope
    ensures WellScoped(s, scope, inside, labels, known)
    decreases s
  {
    hide Rooted, AllRooted, AfterAll, LabelsBy, RootsBy;
    match s
    case Compound(ss) => StatementsNest(ss, scope, inside, labels, roots, known, s);
    case If(_, yes, no) =>
      PermittedNests(yes, scope, inside, labels, roots, known);
      if no.Some? {
        PermittedNests(no.value, scope, inside, labels, roots, known);
      }
    case Do(body, _) => PermittedNests(body, scope, inside, labels, roots, known);
    case While(_, body) => PermittedNests(body, scope, inside, labels, roots, known);
    case For(init, _, _, body) =>
      UnionAgrees(Roots(init, scope), Roots(body, After(init, scope)));
      AgreesTrans(Roots(init, scope), Roots(s, scope), roots);
      AgreesTrans(Roots(body, After(init, scope)), Roots(s, scope), roots);
      RootedAfter(init, scope, roots);
      PermittedNests(body, After(init, scope), inside, labels, roots, known);
    case Switch(_, body) => PermittedNests(body, scope, Some(scope), labels, roots, known);
    case Case(_, inner) =>
      PermittedNests(inner, scope, inside, labels, roots, known);
      Covered(scope, inside, roots);
    case Default(inner) =>
      PermittedNests(inner, scope, inside, labels, roots, known);
      Covered(scope, inside, roots);
    case Label(_, inner) => PermittedNests(inner, scope, inside, labels, roots, known);
    case Goto(name) => GotoNests(name, scope, labels, roots);
    case _ =>
  }

  lemma GotoNests(name: string, scope: Scope, labels: map<string, Scope>, roots: map<Vla, Scope>)
    requires Rooted(scope, roots) && AllRooted(labels, roots)
    requires name in labels ==> Elements(labels[name]) <= Elements(scope)
    ensures name in labels ==> labels[name] <= scope
  {
    if name in labels {
      Nested(labels[name], scope, roots);
    }
  }

  lemma {:induction false} StatementsNest(ss: seq<Stmt>, scope: Scope, inside: Option<Scope>, labels: map<string, Scope>,
                                          roots: map<Vla, Scope>, known: set<string>, whole: Stmt)
    requires whole == Compound(ss)
    requires Permitted(whole, scope, inside, labels) && Aims(whole, labels, known) && Distinct(whole) && AllRooted(labels, roots)
    requires Rooted(scope, roots) && Agrees(Roots(whole, scope), roots)
    requires inside.Some? ==> Rooted(inside.value, roots) && inside.value <= scope
    ensures WellScoped(whole, scope, inside, labels, known)
    decreases whole, 0
  {
    hide Rooted, AllRooted, Agrees, AfterAll, Roots, Distinct;
    forall i | 0 <= i < |ss|
      ensures WellScoped(ss[i], AfterAll(ss, i, scope), inside, labels, known)
    {
      RootedAll(ss, i, scope, roots);
      CompoundRoots(ss, i, scope, roots);
      PermittedNests(ss[i], AfterAll(ss, i, scope), inside, labels, roots, known);
    }
  }

  lemma Covered(scope: Scope, inside: Option<Scope>, roots: map<Vla, Scope>)
    requires SwitchCovers(scope, inside) && Rooted(scope, roots)
    requires inside.Some? ==> Rooted(inside.value, roots) && inside.value <= scope
    ensures inside.Some? ==> inside.value == scope
  {
    if inside.Some? {
      Nested(scope, inside.value, roots);
    }
  }

  lemma BodyNests(body: seq<Stmt>)
    requires ObeysC(body) && DepthsAgree(body)
    ensures WellScoped(Compound(body), [], None, LabelsBy(body, |body|, []), Agreeing(body))
  {
    var roots := Roots(Compound(body), []);
    LabelsRooted(Compound(body), [], roots);
    PermittedNests(Compound(body), [], None, LabelsBy(body, |body|, []), roots, Agreeing(body));
  }
}
