/**
  Rank-1 constraint systems modulo `p`: linear combinations, the quadratic equations over
  them, and field variables as the gadget library builds them. A `Shape` is what a
  synthesizer leaves behind: how many witnesses it allocated and which equations it emitted.
*/
module R1cs {
  import opened Field

  /** A linear combination of the constant one, the public inputs and the witnesses. */
  datatype Lin =
    | Const(c: int) | Input(i: nat) | Witness(j: nat) | Plus(a: Lin, b: Lin) | Minus(a: Lin, b: Lin)
    | Times(k: int, l: Lin)

  /** The equation `a * b == c`. */
  datatype Constraint = Constraint(a: Lin, b: Lin, c: Lin)

  datatype Shape = Shape(wits: nat, cons: seq<Constraint>)

  datatype Assignment = Assignment(inputs: seq<int>, aux: seq<int>)

  function Eval(p: nat, w: Assignment, l: Lin): int
    requires p > 0
  {
    match l
    case Const(c) => c % p
    case Input(i) => if i < |w.inputs| then w.inputs[i] % p else 0
    case Witness(j) => if j < |w.aux| then w.aux[j] % p else 0
    case Plus(a, b) => Add(p, Eval(p, w, a), Eval(p, w, b))
    case Minus(a, b) => Sub(p, Eval(p, w, a), Eval(p, w, b))
    case Times(k, a) => Mul(p, k, Eval(p, w, a))
  }

  /** The combination mentions only the first `n` witnesses. */
  ghost predicate Fits(l: Lin, n: nat) {
    match l
    case Const(_) => true
    case Input(_) => true
    case Witness(j) => j < n
    case Plus(a, b) => Fits(a, n) && Fits(b, n)
    case Minus(a, b) => Fits(a, n) && Fits(b, n)
    case Times(_, a) => Fits(a, n)
  }

  ghost predicate Satisfied(p: nat, w: Assignment, c: Constraint)
    requires p > 0
  {
    Mul(p, Eval(p, w, c.a), Eval(p, w, c.b)) == Eval(p, w, c.c)
  }

  ghost predicate WellFormed(sh: Shape) {
    forall i :: 0 <= i < |sh.cons| ==>
      Fits(sh.cons[i].a, sh.wits) && Fits(sh.cons[i].b, sh.wits) && Fits(sh.cons[i].c, sh.wits)
  }

  ghost predicate Holds(p: nat, w: Assignment, sh: Shape)
    requires p > 0
  {
    sh.wits <= |w.aux| && forall i :: 0 <= i < |sh.cons| ==> Satisfied(p, w, sh.cons[i])
  }

  /** A full assignment for exactly this shape. */
  ghost predicate Sat(p: nat, w: Assignment, sh: Shape)
    requires p > 0
  {
    Holds(p, w, sh) && |w.aux| == sh.wits
  }

  ghost predicate Grows(sh: Shape, sh': Shape) {
    sh.wits <= sh'.wits && sh.cons <= sh'.cons
  }

  ghost predicate Extends(w: Assignment, w': Assignment) {
    w.inputs == w'.inputs && w.aux <= w'.aux
  }

  /** Every satisfying assignment of the old shape extends to one of the new shape. */
  ghost predicate CanExtend(p: nat, sh: Shape, sh': Shape)
    requires p > 0
  {
    forall w :: Sat(p, w, sh) ==> exists w' :: Sat(p, w', sh') && Extends(w, w')
  }

  /** The new shape adds to the old one without constraining what the old one already fixed. */
  ghost predicate Adds(p: nat, sh: Shape, sh': Shape)
    requires p > 0
  {
    WellFormed(sh) && WellFormed(sh') && Grows(sh, sh') && CanExtend(p, sh, sh')
  }

  lemma HoldsEarlier(p: nat, w: Assignment, sh: Shape, sh': Shape)
    requires p > 0 && Grows(sh, sh') && Holds(p, w, sh')
    ensures Holds(p, w, sh)
  {
    forall i | 0 <= i < |sh.cons|
      ensures Satisfied(p, w, sh.cons[i])
    {
      assert sh.cons[i] == sh'.cons[i];
    }
  }

  lemma AddsTrans(p: nat, sh: Shape, mid: Shape, sh': Shape)
    requires p > 0 && Adds(p, sh, mid) && Adds(p, mid, sh')
    ensures Adds(p, sh, sh')
  {
    forall w | Sat(p, w, sh)
      ensures exists w' :: Sat(p, w', sh') && Extends(w, w')
    {
      var m :| Sat(p, m, mid) && Extends(w, m);
      var w' :| Sat(p, w', sh') && Extends(m, w');
      assert Extends(w, w');
    }
  }

  lemma AddsRefl(p: nat, sh: Shape)
    requires p > 0 && WellFormed(sh)
    ensures Adds(p, sh, sh)
  {
    forall w | Sat(p, w, sh)
      ensures exists w' :: Sat(p, w', sh) && Extends(w, w')
    {
      assert Extends(w, w);
    }
  }

  lemma {:induction false} FitsMore(l: Lin, m: nat, n: nat)
    requires Fits(l, m) && m <= n
    ensures Fits(l, n)
  {
    match l
    case Plus(a, b) => FitsMore(a, m, n); FitsMore(b, m, n);
    case Minus(a, b) => FitsMore(a, m, n); FitsMore(b, m, n);
    case Times(_, a) => FitsMore(a, m, n);
    case _ =>
  }

  /** What was already expressible keeps its value when the assignment is extended. */
  lemma {:induction false} EvalExtends(p: nat, w: Assignment, w': Assignment, l: Lin)
    requires p > 0 && Extends(w, w') && Fits(l, |w.aux|)
    ensures Eval(p, w', l) == Eval(p, w, l)
  {
    match l
    case Plus(a, b) => EvalExtends(p, w, w', a); EvalExtends(p, w, w', b);
    case Minus(a, b) => EvalExtends(p, w, w', a); EvalExtends(p, w, w', b);
    case Times(_, a) => EvalExtends(p, w, w', a);
    case _ =>
  }

  lemma EvalCanonical(p: nat, w: Assignment, l: Lin)
    requires p > 0
    ensures Canonical(p, Eval(p, w, l))
  {
  }

  // ----- growing a shape -----------------------------------------------------------------------

  /** Allocate one witness and emit `extra` about it. */
  function Grow(sh: Shape, extra: seq<Constraint>): Shape {
    Shape(sh.wits + 1, sh.cons + extra)
  }

  function Emit(sh: Shape, c: Constraint): Shape {
    Shape(sh.wits, sh.cons + [c])
  }

  function Push(w: Assignment, v: int): Assignment {
    Assignment(w.inputs, w.aux + [v])
  }

  /** The old equations still hold after one more witness is appended. */
  lemma HoldsPush(p: nat, w: Assignment, sh: Shape, v: int)
    requires p > 0 && WellFormed(sh) && Sat(p, w, sh)
    ensures Holds(p, Push(w, v), sh) && Extends(w, Push(w, v))
  {
    var w' := Push(w, v);
    forall i | 0 <= i < |sh.cons|
      ensures Satisfied(p, w', sh.cons[i])
    {
      var c := sh.cons[i];
      EvalExtends(p, w, w', c.a);
      EvalExtends(p, w, w', c.b);
      EvalExtends(p, w, w', c.c);
      assert Satisfied(p, w, c);
    }
  }

  /** Allocating a witness with at most one equation about it leaves a well-formed shape. */
  lemma GrowWellFormed(sh: Shape, extra: seq<Constraint>)
    requires WellFormed(sh)
    requires forall i :: 0 <= i < |extra| ==>
      Fits(extra[i].a, sh.wits + 1) && Fits(extra[i].b, sh.wits + 1) && Fits(extra[i].c, sh.wits + 1)
    ensures WellFormed(Grow(sh, extra)) && Grows(sh, Grow(sh, extra))
  {
    var sh' := Grow(sh, extra);
    forall i | 0 <= i < |sh'.cons|
      ensures Fits(sh'.cons[i].a, sh'.wits) && Fits(sh'.cons[i].b, sh'.wits) && Fits(sh'.cons[i].c, sh'.wits)
    {
      if i < |sh.cons| {
        FitsMore(sh.cons[i].a, sh.wits, sh'.wits);
        FitsMore(sh.cons[i].b, sh.wits, sh'.wits);
        FitsMore(sh.cons[i].c, sh.wits, sh'.wits);
      }
    }
  }

  // ----- field variables -----------------------------------------------------------------------

  datatype FpVar = Constant(c: int) | Var(lin: Lin)

  function Value(p: nat, w: Assignment, x: FpVar): int
    requires p > 0
  {
    match x
    case Constant(c) => c % p
    case Var(l) => Eval(p, w, l)
  }

  ghost predicate FitsVar(x: FpVar, n: nat) {
    x.Var? ==> Fits(x.lin, n)
  }

  /** Addition never emits an equation. */
  function AddVar(p: nat, x: FpVar, y: FpVar): FpVar
    requires p > 0
  {
    match (x, y)
    case (Constant(a), Constant(b)) => Constant(Add(p, a, b))
    case (Constant(a), Var(l)) => Var(Plus(l, Const(a)))
    case (Var(l), Constant(b)) => Var(Plus(l, Const(b)))
    case (Var(l), Var(m)) => Var(Plus(l, m))
  }

  /** Neither does multiplication by a constant. */
  function ScaleVar(p: nat, x: FpVar, k: int): FpVar
    requires p > 0
  {
    match x
    case Constant(a) => Constant(Mul(p, a, k))
    case Var(l) => Var(Times(k, l))
  }

  /** The product of two variables is a fresh witness tied to them by one equation. */
  function MulVar(p: nat, sh: Shape, x: FpVar, y: FpVar): (Shape, FpVar)
    requires p > 0
  {
    match (x, y)
    case (Constant(a), _) => (sh, ScaleVar(p, y, a))
    case (Var(_), Constant(b)) => (sh, ScaleVar(p, x, b))
    case (Var(l), Var(m)) => (Grow(sh, [Constraint(l, m, Witness(sh.wits))]), Var(Witness(sh.wits)))
  }

  lemma AddReduced(p: nat, a: int, b: int)
    requires p > 0
    ensures Add(p, a, b) % p == Add(p, a % p, b % p)
  {
    ReduceAdd(p, a, b);
    ReduceAdd(p, b, a % p);
    CanonicalMod(p, (a + b) % p);
  }

  lemma PlusConst(p: nat, w: Assignment, l: Lin, c: int)
    requires p > 0
    ensures Eval(p, w, Plus(l, Const(c))) == Add(p, Eval(p, w, l), c % p) == Add(p, c % p, Eval(p, w, l))
  {
  }

  lemma AddVarValue(p: nat, w: Assignment, x: FpVar, y: FpVar)
    requires p > 0
    ensures Value(p, w, AddVar(p, x, y)) == Add(p, Value(p, w, x), Value(p, w, y))
  {
    match (x, y)
    case (Constant(a), Constant(b)) => AddReduced(p, a, b);
    case (Constant(a), Var(l)) => PlusConst(p, w, l, a);
    case (Var(l), Constant(b)) => PlusConst(p, w, l, b);
    case (Var(l), Var(m)) =>
  }

  lemma ScaledConstant(p: nat, a: int, k: int)
    requires p > 0
    ensures Mul(p, a, k) % p == Mul(p, a % p, k)
  {
    ReduceMul(p, a, k);
    ModRange(p, a * k);
  }

  lemma MulCommutes(p: nat, a: int, b: int)
    requires p > 0
    ensures Mul(p, a, b) == Mul(p, b, a)
  {
    assert a * b == b * a;
  }

  lemma ScaleVarValue(p: nat, w: Assignment, x: FpVar, k: int)
    requires p > 0
    ensures Value(p, w, ScaleVar(p, x, k)) == Mul(p, Value(p, w, x), k)
  {
    match x
    case Constant(a) => ScaledConstant(p, a, k);
    case Var(l) => MulCommutes(p, k, Eval(p, w, l));
  }

  lemma LinearVarsFit(p: nat, x: FpVar, y: FpVar, k: int, n: nat)
    requires p > 0 && FitsVar(x, n) && FitsVar(y, n)
    ensures FitsVar(AddVar(p, x, y), n) && FitsVar(ScaleVar(p, x, k), n)
  {
  }

  lemma VarFitsMore(x: FpVar, m: nat, n: nat)
    requires FitsVar(x, m) && m <= n
    ensures FitsVar(x, n)
  {
    if x.Var? { FitsMore(x.lin, m, n); }
  }

  lemma ValueExtends(p: nat, w: Assignment, w': Assignment, x: FpVar)
    requires p > 0 && Extends(w, w') && FitsVar(x, |w.aux|)
    ensures Value(p, w', x) == Value(p, w, x)
  {
    if x.Var? { EvalExtends(p, w, w', x.lin); }
  }

  /** A gadget with one output: it adds to the shape, and the output fits. */
  ghost predicate Gadget(p: nat, sh: Shape, r: (Shape, FpVar))
    requires p > 0
  {
    Adds(p, sh, r.0) && FitsVar(r.1, r.0.wits)
  }

  lemma MulVarGadget(p: nat, sh: Shape, x: FpVar, y: FpVar)
    requires p > 0 && WellFormed(sh) && FitsVar(x, sh.wits) && FitsVar(y, sh.wits)
    ensures Gadget(p, sh, MulVar(p, sh, x, y))
  {
    if x.Var? && y.Var? {
      var sh' := MulVar(p, sh, x, y).0;
      FitsMore(x.lin, sh.wits, sh'.wits);
      FitsMore(y.lin, sh.wits, sh'.wits);
      GrowWellFormed(sh, [Constraint(x.lin, y.lin, Witness(sh.wits))]);
      forall w | Sat(p, w, sh)
        ensures exists w' :: Sat(p, w', sh') && Extends(w, w')
      {
        var v := Mul(p, Eval(p, w, x.lin), Eval(p, w, y.lin));
        HoldsPush(p, w, sh, v);
        EvalExtends(p, w, Push(w, v), x.lin);
        EvalExtends(p, w, Push(w, v), y.lin);
        assert Eval(p, Push(w, v), Witness(sh.wits)) == v;
        assert Sat(p, Push(w, v), sh');
      }
    } else {
      AddsRefl(p, sh);
    }
  }

  lemma MulVarValue(p: nat, w: Assignment, sh: Shape, x: FpVar, y: FpVar)
    requires p > 0 && Holds(p, w, MulVar(p, sh, x, y).0)
    ensures Value(p, w, MulVar(p, sh, x, y).1) == Mul(p, Value(p, w, x), Value(p, w, y))
  {
    match (x, y)
    case (Constant(a), _) =>
      ScaleVarValue(p, w, y, a);
      ReduceMul(p, a, Value(p, w, y));
      assert a * Value(p, w, y) == Value(p, w, y) * a;
    case (Var(_), Constant(b)) =>
      ScaleVarValue(p, w, x, b);
      ReduceMul(p, b, Value(p, w, x));
    case (Var(l), Var(m)) =>
      var sh' := MulVar(p, sh, x, y).0;
      assert sh'.cons[|sh.cons|] == Constraint(l, m, Witness(sh.wits));
      assert Satisfied(p, w, sh'.cons[|sh.cons|]);
  }

  // ----- equality, booleans and selection -------------------------------------------------------

  function LinOf(x: FpVar): Lin {
    match x
    case Constant(c) => Const(c)
    case Var(l) => l
  }

  /** `enforce_equal`: the difference times one is zero. */
  function EnforceEqual(p: nat, sh: Shape, x: FpVar, y: FpVar): Shape
    requires p > 0
  {
    Emit(sh, Constraint(Minus(LinOf(x), LinOf(y)), Const(1), Const(0)))
  }

  lemma ZeroDifference(p: nat, a: int, b: int)
    requires p > 0 && Canonical(p, a) && Canonical(p, b)
    ensures (a - b) % p == 0 <==> a == b
  {
    if (a - b) % p == 0 {
      var k := Multiple(p, a - b, 0);
      SmallMultiple(p, k);
    }
  }

  lemma TimesOne(p: nat, x: int)
    requires p > 1
    ensures Mul(p, x % p, 1 % p) == x % p
  {
    CanonicalMod(p, 1);
    CanonicalMod(p, x % p);
    assert (x % p) * 1 == x % p;
  }

  lemma EqualityMeaning(p: nat, w: Assignment, sh: Shape, x: FpVar, y: FpVar)
    requires p > 1 && Holds(p, w, sh)
    ensures Holds(p, w, EnforceEqual(p, sh, x, y)) <==> Value(p, w, x) == Value(p, w, y)
  {
    var sh', a, b := EnforceEqual(p, sh, x, y), Value(p, w, x), Value(p, w, y);
    EvalCanonical(p, w, LinOf(x));
    EvalCanonical(p, w, LinOf(y));
    TimesOne(p, a - b);
    CanonicalMod(p, 0);
    ZeroDifference(p, a, b);
    assert Satisfied(p, w, Constraint(Minus(LinOf(x), LinOf(y)), Const(1), Const(0))) <==> a == b;
    EmitMeaning(p, w, sh, Constraint(Minus(LinOf(x), LinOf(y)), Const(1), Const(0)));
  }

  lemma EmitMeaning(p: nat, w: Assignment, sh: Shape, c: Constraint)
    requires p > 0 && Holds(p, w, sh)
    ensures Holds(p, w, Emit(sh, c)) <==> Satisfied(p, w, c)
  {
    var sh' := Emit(sh, c);
    assert sh'.cons[|sh.cons|] == c;
    forall i | 0 <= i < |sh.cons|
      ensures Satisfied(p, w, sh'.cons[i])
    {
      assert sh'.cons[i] == sh.cons[i];
    }
  }

  lemma EnforceEqualWellFormed(p: nat, sh: Shape, x: FpVar, y: FpVar)
    requires p > 0 && WellFormed(sh) && FitsVar(x, sh.wits) && FitsVar(y, sh.wits)
    ensures WellFormed(EnforceEqual(p, sh, x, y)) && Grows(sh, EnforceEqual(p, sh, x, y))
  {
    var sh' := EnforceEqual(p, sh, x, y);
    FitsLinOf(x, sh.wits, sh.wits);
    FitsLinOf(y, sh.wits, sh.wits);
    assert Fits(Minus(LinOf(x), LinOf(y)), sh.wits);
    forall i | 0 <= i < |sh'.cons|
      ensures Fits(sh'.cons[i].a, sh'.wits) && Fits(sh'.cons[i].b, sh'.wits) && Fits(sh'.cons[i].c, sh'.wits)
    {
      if i < |sh.cons| { assert sh'.cons[i] == sh.cons[i]; }
    }
  }

  /** A boolean witness: allocated with `(1 - b) * b == 0`. */
  function NewBoolean(p: nat, sh: Shape): (Shape, Lin)
    requires p > 0
  {
    var b := Witness(sh.wits);
    (Grow(sh, [Constraint(Minus(Const(1), b), b, Const(0))]), b)
  }

  predicate IsBit(v: int) {
    v == 0 || v == 1
  }

  lemma BooleanEquation(p: nat, v: int)
    requires IsPrime(p) && Canonical(p, v) && Mul(p, Sub(p, 1 % p, v), v) == 0 % p
    ensures IsBit(v)
  {
    CanonicalMod(p, 1);
    CanonicalMod(p, 0);
    ReduceMul(p, 1 - v, v);
    NoZeroDivisors(p, 1 - v, v);
    CanonicalMod(p, v);
    if v != 0 {
      ZeroDifference(p, 1, v);
    }
  }

  lemma BooleanConstraint(p: nat, w: Assignment, b: Lin, c: Constraint)
    requires IsPrime(p) && c == Constraint(Minus(Const(1), b), b, Const(0)) && Satisfied(p, w, c)
    ensures IsBit(Eval(p, w, b))
  {
    EvalCanonical(p, w, b);
    assert Eval(p, w, c.a) == Sub(p, 1 % p, Eval(p, w, b));
    BooleanEquation(p, Eval(p, w, b));
  }

  lemma BooleanValue(p: nat, w: Assignment, sh: Shape)
    requires IsPrime(p) && Holds(p, w, NewBoolean(p, sh).0)
    ensures IsBit(Eval(p, w, Witness(sh.wits)))
  {
    var b := Witness(sh.wits);
    var c := Constraint(Minus(Const(1), b), b, Const(0));
    LastHolds(p, w, sh, c);
    BooleanConstraint(p, w, b, c);
  }

  /** A plain witness. */
  function NewWitness(sh: Shape): (Shape, FpVar) {
    (Grow(sh, []), Var(Witness(sh.wits)))
  }

  /** The prover may put any value into a plain witness. */
  lemma ChooseWitness(p: nat, w: Assignment, sh: Shape, v: int)
    requires p > 0 && WellFormed(sh) && Sat(p, w, sh) && Canonical(p, v)
    ensures Sat(p, Push(w, v), NewWitness(sh).0) && Extends(w, Push(w, v))
    ensures Value(p, Push(w, v), NewWitness(sh).1) == v
  {
    HoldsPush(p, w, sh, v);
    CanonicalMod(p, v);
  }

  /** And either bit into a boolean one. */
  lemma ChooseBoolean(p: nat, w: Assignment, sh: Shape, bit: bool)
    requires p > 1 && WellFormed(sh) && Sat(p, w, sh)
    ensures var v := if bit then 1 else 0;
      && Sat(p, Push(w, v), NewBoolean(p, sh).0) && Extends(w, Push(w, v))
      && Eval(p, Push(w, v), NewBoolean(p, sh).1) == v
  {
    var v := if bit then 1 else 0;
    var w', b := Push(w, v), Witness(sh.wits);
    HoldsPush(p, w, sh, v);
    CanonicalMod(p, v);
    CanonicalMod(p, 1);
    CanonicalMod(p, 0);
    var c := Constraint(Minus(Const(1), b), b, Const(0));
    assert Eval(p, w', b) == v;
    assert Satisfied(p, w', c);
  }

  /** Free witnesses and booleans constrain nothing older. */
  lemma NewWitnessGadget(p: nat, sh: Shape)
    requires p > 0 && WellFormed(sh)
    ensures Gadget(p, sh, NewWitness(sh))
  {
    GrowWellFormed(sh, []);
    forall w | Sat(p, w, sh)
      ensures exists w' :: Sat(p, w', NewWitness(sh).0) && Extends(w, w')
    {
      ChooseWitness(p, w, sh, 0);
    }
  }

  lemma NewBooleanGadget(p: nat, sh: Shape)
    requires p > 1 && WellFormed(sh)
    ensures Adds(p, sh, NewBoolean(p, sh).0) && Fits(NewBoolean(p, sh).1, NewBoolean(p, sh).0.wits)
  {
    var b := Witness(sh.wits);
    assert Fits(Minus(Const(1), b), sh.wits + 1) by {
      assert Fits(Const(1), sh.wits + 1) && Fits(b, sh.wits + 1);
    }
    GrowWellFormed(sh, [Constraint(Minus(Const(1), b), b, Const(0))]);
    forall w | Sat(p, w, sh)
      ensures exists w' :: Sat(p, w', NewBoolean(p, sh).0) && Extends(w, w')
    {
      ChooseBoolean(p, w, sh, false);
    }
  }

  /** `conditionally_select` on variables: a fresh `r` with `b * (t - f) == r - f`. */
  function Select(p: nat, sh: Shape, b: Lin, t: FpVar, f: FpVar): (Shape, FpVar)
    requires p > 0
  {
    var r := Witness(sh.wits);
    (Grow(sh, [Constraint(b, Minus(LinOf(t), LinOf(f)), Minus(r, LinOf(f)))]), Var(r))
  }

  lemma FitsLinOf(x: FpVar, m: nat, n: nat)
    requires FitsVar(x, m) && m <= n
    ensures Fits(LinOf(x), n)
  {
    if x.Var? { FitsMore(x.lin, m, n); }
  }

  lemma LinOfValue(p: nat, w: Assignment, x: FpVar)
    requires p > 0
    ensures Eval(p, w, LinOf(x)) == Value(p, w, x)
  {
  }

  lemma SelectGadget(p: nat, sh: Shape, b: Lin, t: FpVar, f: FpVar)
    requires p > 0 && WellFormed(sh) && Fits(b, sh.wits) && FitsVar(t, sh.wits) && FitsVar(f, sh.wits)
    ensures Gadget(p, sh, Select(p, sh, b, t, f))
  {
    var sh', r := Select(p, sh, b, t, f).0, Witness(sh.wits);
    FitsMore(b, sh.wits, sh'.wits);
    FitsLinOf(t, sh.wits, sh'.wits);
    FitsLinOf(f, sh.wits, sh'.wits);
    var c := Constraint(b, Minus(LinOf(t), LinOf(f)), Minus(r, LinOf(f)));
    GrowWellFormed(sh, [c]);
    forall w | Sat(p, w, sh)
      ensures exists w' :: Sat(p, w', sh') && Extends(w, w')
    {
      var tv, fv, bv := Value(p, w, t), Value(p, w, f), Eval(p, w, b);
      var v := (fv + bv * (tv - fv)) % p;
      var w' := Push(w, v);
      HoldsPush(p, w, sh, v);
      EvalExtends(p, w, w', b);
      ValueExtends(p, w, w', t);
      ValueExtends(p, w, w', f);
      SelectEquation(p, bv, tv - fv, fv, v, bv * (tv - fv));
      CanonicalMod(p, v);
      assert Satisfied(p, w', c);
      assert Sat(p, w', sh');
    }
  }

  lemma SelectEquation(p: nat, b: int, d: int, f: int, v: int, m: int)
    requires p > 0 && m == b * d && v == (f + m) % p
    ensures Mul(p, b, d % p) == (v - f) % p
  {
    ReduceMul(p, d, b);
    DropShift(p, f, m);
  }

  lemma DropShift(p: nat, f: int, m: int)
    requires p > 0
    ensures ((f + m) % p - f) % p == m % p
  {
    ReduceAdd(p, f + m, -f);
  }

  lemma SelectMeaning(p: nat, b: int, t: int, f: int, v: int)
    requires p > 1 && Canonical(p, t) && Canonical(p, f) && Canonical(p, v) && IsBit(b)
    requires Mul(p, b, Sub(p, t, f)) == Sub(p, v, f)
    ensures v == if b == 1 then t else f
  {
    if b == 1 {
      CanonicalMod(p, (t - f) % p);
      SameDifference(p, v, t, f);
    } else {
      CanonicalMod(p, 0);
      ZeroDifference(p, v, f);
    }
  }

  /** The equation of a selection, read off its constraint. */
  lemma SelectSatisfied(p: nat, w: Assignment, b: Lin, t: Lin, f: Lin, r: Lin)
    requires p > 0 && Satisfied(p, w, Constraint(b, Minus(t, f), Minus(r, f)))
    ensures Mul(p, Eval(p, w, b), Sub(p, Eval(p, w, t), Eval(p, w, f))) == Sub(p, Eval(p, w, r), Eval(p, w, f))
  {
  }

  lemma SelectedValue(p: nat, w: Assignment, b: Lin, t: Lin, f: Lin, r: Lin)
    requires p > 1 && Satisfied(p, w, Constraint(b, Minus(t, f), Minus(r, f))) && IsBit(Eval(p, w, b))
    ensures Eval(p, w, r) == if Eval(p, w, b) == 1 then Eval(p, w, t) else Eval(p, w, f)
  {
    SelectSatisfied(p, w, b, t, f, r);
    EvalCanonical(p, w, t);
    EvalCanonical(p, w, f);
    EvalCanonical(p, w, r);
    SelectMeaning(p, Eval(p, w, b), Eval(p, w, t), Eval(p, w, f), Eval(p, w, r));
  }

  lemma SelectValue(p: nat, w: Assignment, sh: Shape, b: Lin, t: FpVar, f: FpVar)
    requires p > 1 && Holds(p, w, Select(p, sh, b, t, f).0) && IsBit(Eval(p, w, b))
    ensures Value(p, w, Select(p, sh, b, t, f).1) == if Eval(p, w, b) == 1 then Value(p, w, t) else Value(p, w, f)
  {
    var r := Witness(sh.wits);
    LastHolds(p, w, sh, Constraint(b, Minus(LinOf(t), LinOf(f)), Minus(r, LinOf(f))));
    LinOfValue(p, w, t);
    LinOfValue(p, w, f);
    SelectedValue(p, w, b, LinOf(t), LinOf(f), r);
  }

  lemma LastHolds(p: nat, w: Assignment, sh: Shape, c: Constraint)
    requires p > 0 && Holds(p, w, Grow(sh, [c]))
    ensures Satisfied(p, w, c)
  {
    assert Grow(sh, [c]).cons[|sh.cons|] == c;
  }

  lemma SameDifference(p: nat, x: int, y: int, f: int)
    requires p > 0 && Canonical(p, x) && Canonical(p, y) && (x - f) % p == (y - f) % p
    ensures x == y
  {
    var k := Multiple(p, x - f, y - f);
    SmallMultiple(p, k);
  }
}
