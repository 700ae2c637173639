/**
  The withdraw circuit (zk-circuits/src/lib.rs): what `generate_constraints` emits, and the
  proof that the emitted system is satisfiable for exactly the public inputs that `assign`
  can produce.
*/
module WithdrawCircuit {
  import opened Field
  import opened Merkle
  import opened NoteRelation
  import opened Poseidon2
  import opened R1cs
  import opened HashGadget

  function HashFn(p: nat): (int, int) -> int
    requires p > 0
  {
    (a: int, b: int) => Hash2(p, a, b)
  }

  const ROOT_INPUT: FpVar := Var(Input(0))
  const NULLIFIER_INPUT: FpVar := Var(Input(1))
  const RECIPIENT_INPUT: FpVar := Var(Input(2))

  /** One level of the path: a sibling, a bit, two selections and a hash. */
  function LevelVar(p: nat, sh: Shape, cur: FpVar): (Shape, FpVar)
    requires p > 0
  {
    var (sh1, sibling) := NewWitness(sh);
    var (sh2, bit) := NewBoolean(p, sh1);
    var (sh3, left) := Select(p, sh2, bit, sibling, cur);
    var (sh4, right) := Select(p, sh3, bit, cur, sibling);
    Hash2Var(p, sh4, left, right)
  }

  function LevelsVar(p: nat, n: nat, sh: Shape, leaf: FpVar): (Shape, FpVar)
    requires p > 0
  {
    if n == 0 then (sh, leaf)
    else
      var (sh', cur) := LevelsVar(p, n - 1, sh, leaf);
      LevelVar(p, sh', cur)
  }

  /** The secret, the first witness, and the leaf. */
  function LeafPart(p: nat): (Shape, FpVar)
    requires p > 0
  {
    Hash2Var(p, NewWitness(Shape(0, [])).0, Var(Witness(0)), Constant(0))
  }

  /** Everything up to the root check. */
  function PathPart(p: nat, depth: nat): (Shape, FpVar)
    requires p > 0
  {
    var (sh, leaf) := LeafPart(p);
    LevelsVar(p, depth, sh, leaf)
  }

  /** Everything up to the root check, with it. */
  function RootPart(p: nat, depth: nat): Shape
    requires p > 0
  {
    EnforceEqual(p, PathPart(p, depth).0, PathPart(p, depth).1, ROOT_INPUT)
  }

  function NullifierPart(p: nat, depth: nat): (Shape, FpVar)
    requires p > 0
  {
    Hash2Var(p, RootPart(p, depth), Var(Witness(0)), Constant(1))
  }

  function Circuit(p: nat, depth: nat): Shape
    requires p > 0
  {
    var (sh, nf) := NullifierPart(p, depth);
    MulVar(p, EnforceEqual(p, sh, nf, NULLIFIER_INPUT), RECIPIENT_INPUT, RECIPIENT_INPUT).0
  }

  // ----- one level ---------------------------------------------------------------------------------

  /** The shapes a level goes through, each adding to the one before. */
  lemma LevelGadget(p: nat, sh: Shape, cur: FpVar)
    requires p > 1 && WellFormed(sh) && FitsVar(cur, sh.wits)
    ensures var (sh1, sibling) := NewWitness(sh);
      var (sh2, bit) := NewBoolean(p, sh1);
      var (sh3, left) := Select(p, sh2, bit, sibling, cur);
      var (sh4, right) := Select(p, sh3, bit, cur, sibling);
      && Adds(p, sh, sh1) && Adds(p, sh1, sh2) && Adds(p, sh2, sh3) && Adds(p, sh3, sh4)
      && FitsVar(sibling, sh2.wits) && Fits(bit, sh3.wits) && FitsVar(cur, sh3.wits) && FitsVar(cur, sh2.wits)
      && FitsVar(left, sh4.wits) && FitsVar(right, sh4.wits)
      && Gadget(p, sh4, LevelVar(p, sh, cur)) && Gadget(p, sh, LevelVar(p, sh, cur))
  {
    var (sh1, sibling) := NewWitness(sh);
    NewWitnessGadget(p, sh);
    var (sh2, bit) := NewBoolean(p, sh1);
    NewBooleanGadget(p, sh1);
    VarFitsMore(sibling, sh1.wits, sh2.wits);
    VarFitsMore(cur, sh.wits, sh2.wits);
    var (sh3, left) := Select(p, sh2, bit, sibling, cur);
    SelectGadget(p, sh2, bit, sibling, cur);
    VarFitsMore(sibling, sh2.wits, sh3.wits);
    VarFitsMore(cur, sh2.wits, sh3.wits);
    FitsMore(bit, sh2.wits, sh3.wits);
    var (sh4, right) := Select(p, sh3, bit, cur, sibling);
    SelectGadget(p, sh3, bit, cur, sibling);
    VarFitsMore(left, sh3.wits, sh4.wits);
    Hash2Gadget(p, sh4, left, right);
    AddsTrans(p, sh, sh1, sh2);
    AddsTrans(p, sh, sh2, sh3);
    AddsTrans(p, sh, sh3, sh4);
    AddsTrans(p, sh, sh4, LevelVar(p, sh, cur).0);
  }

  /** In any assignment satisfying a level, its output is one step up the path. */
  lemma LevelSound(p: nat, w: Assignment, sh: Shape, cur: FpVar) returns (sibling: int, bit: bool)
    requires IsPrime(p) && WellFormed(sh) && FitsVar(cur, sh.wits) && Holds(p, w, LevelVar(p, sh, cur).0)
    ensures Canonical(p, sibling)
    ensures Value(p, w, LevelVar(p, sh, cur).1) == Up(HashFn(p), Value(p, w, cur), sibling, bit)
  {
    LevelGadget(p, sh, cur);
    var (sh1, sib) := NewWitness(sh);
    var (sh2, b) := NewBoolean(p, sh1);
    var (sh3, left) := Select(p, sh2, b, sib, cur);
    var (sh4, right) := Select(p, sh3, b, cur, sib);
    Hash2Gadget(p, sh4, left, right);
    HoldsEarlier(p, w, sh4, LevelVar(p, sh, cur).0);
    HoldsEarlier(p, w, sh3, sh4);
    HoldsEarlier(p, w, sh2, sh3);
    BooleanValue(p, w, sh1);
    SelectValue(p, w, sh2, b, sib, cur);
    SelectValue(p, w, sh3, b, cur, sib);
    EvalCanonical(p, w, Witness(sh.wits));
    sibling, bit := Value(p, w, sib), Eval(p, w, b) == 1;
  }

  /** Any sibling and bit can be assigned to a level. */
  lemma LevelComplete(p: nat, w: Assignment, sh: Shape, cur: FpVar, sibling: int, bit: bool) returns (w': Assignment)
    requires IsPrime(p) && WellFormed(sh) && FitsVar(cur, sh.wits) && Sat(p, w, sh) && Canonical(p, sibling)
    ensures Sat(p, w', LevelVar(p, sh, cur).0) && Extends(w, w')
    ensures Value(p, w', LevelVar(p, sh, cur).1) == Up(HashFn(p), Value(p, w, cur), sibling, bit)
  {
    LevelGadget(p, sh, cur);
    var (sh1, sib) := NewWitness(sh);
    var (sh2, b) := NewBoolean(p, sh1);
    var (sh3, left) := Select(p, sh2, b, sib, cur);
    var (sh4, right) := Select(p, sh3, b, cur, sib);
    ChooseWitness(p, w, sh, sibling);
    var w1 := Push(w, sibling);
    ChooseBoolean(p, w1, sh1, bit);
    var w2 := Push(w1, if bit then 1 else 0);
    AddsTrans(p, sh2, sh3, sh4);
    AddsTrans(p, sh2, sh4, LevelVar(p, sh, cur).0);
    w' :| Sat(p, w', LevelVar(p, sh, cur).0) && Extends(w2, w');
    Hash2Gadget(p, sh4, left, right);
    HoldsEarlier(p, w', sh4, LevelVar(p, sh, cur).0);
    HoldsEarlier(p, w', sh3, sh4);
    ValueExtends(p, w1, w', sib);
    EvalExtends(p, w2, w', b);
    ValueExtends(p, w, w', cur);
    SelectValue(p, w', sh2, b, sib, cur);
    SelectValue(p, w', sh3, b, cur, sib);
  }

  // ----- the whole path ----------------------------------------------------------------------------

  lemma {:induction false} LevelsGadget(p: nat, n: nat, sh: Shape, leaf: FpVar)
    requires p > 1 && WellFormed(sh) && FitsVar(leaf, sh.wits)
    ensures Gadget(p, sh, LevelsVar(p, n, sh, leaf))
  {
    if n == 0 {
      AddsRefl(p, sh);
    } else {
      LevelsGadget(p, n - 1, sh, leaf);
      var (mid, cur) := LevelsVar(p, n - 1, sh, leaf);
      LevelGadget(p, mid, cur);
      AddsTrans(p, sh, mid, LevelsVar(p, n, sh, leaf).0);
    }
  }

  /** A fold looks only at the part of the path it walks. */
  lemma {:induction false} FoldPrefix<F>(h: (F, F) -> F, leaf: F, xs: seq<F>, ys: seq<F>, bs: seq<bool>, cs: seq<bool>,
                                         n: nat)
    requires n <= |xs| && n <= |bs| && xs <= ys && bs <= cs
    ensures Fold(h, leaf, xs, bs, n) == Fold(h, leaf, ys, cs, n)
  {
    if n != 0 {
      FoldPrefix(h, leaf, xs, ys, bs, cs, n - 1);
    }
  }

  lemma FoldStep<F>(h: (F, F) -> F, leaf: F, xs: seq<F>, bs: seq<bool>, x: F, b: bool)
    requires |xs| == |bs|
    ensures Fold(h, leaf, xs + [x], bs + [b], |xs| + 1) == Up(h, Fold(h, leaf, xs, bs, |xs|), x, b)
  {
    FoldPrefix(h, leaf, xs, xs + [x], bs, bs + [b], |xs|);
  }

  ghost predicate AllCanonical(p: nat, xs: seq<int>) {
    forall i :: 0 <= i < |xs| ==> Canonical(p, xs[i])
  }

  /** What satisfies `n` levels satisfies the first `n - 1` of them. */
  lemma LevelsEarlier(p: nat, n: nat, w: Assignment, sh: Shape, leaf: FpVar)
    requires n > 0 && IsPrime(p) && WellFormed(sh) && FitsVar(leaf, sh.wits) && Holds(p, w, LevelsVar(p, n, sh, leaf).0)
    ensures var (mid, cur) := LevelsVar(p, n - 1, sh, leaf);
      WellFormed(mid) && FitsVar(cur, mid.wits) && Holds(p, w, mid) && Holds(p, w, LevelVar(p, mid, cur).0)
  {
    LevelsGadget(p, n - 1, sh, leaf);
    var (mid, cur) := LevelsVar(p, n - 1, sh, leaf);
    LevelGadget(p, mid, cur);
    HoldsEarlier(p, w, mid, LevelsVar(p, n, sh, leaf).0);
  }

  lemma {:induction false} LevelsSound(p: nat, n: nat, w: Assignment, sh: Shape, leaf: FpVar)
    returns (siblings: seq<int>, bits: seq<bool>)
    requires IsPrime(p) && WellFormed(sh) && FitsVar(leaf, sh.wits) && Holds(p, w, LevelsVar(p, n, sh, leaf).0)
    ensures |siblings| == n && |bits| == n && AllCanonical(p, siblings)
    ensures Value(p, w, LevelsVar(p, n, sh, leaf).1) == Fold(HashFn(p), Value(p, w, leaf), siblings, bits, n)
  {
    if n == 0 {
      siblings, bits := [], [];
    } else {
      LevelsEarlier(p, n, w, sh, leaf);
      var (mid, cur) := LevelsVar(p, n - 1, sh, leaf);
      var xs, bs := LevelsSound(p, n - 1, w, sh, leaf);
      var sibling, bit := LevelSound(p, w, mid, cur);
      siblings, bits := xs + [sibling], bs + [bit];
      FoldStep(HashFn(p), Value(p, w, leaf), xs, bs, sibling, bit);
    }
  }

  lemma ExtendsOnce(u: Assignment, v: Assignment, w: Assignment)
    requires Extends(u, v) && Extends(v, w)
    ensures Extends(u, w)
  {
  }

  /** One level more. */
  lemma LevelsExtend(p: nat, n: nat, w: Assignment, sh: Shape, leaf: FpVar, siblings: seq<int>, bits: seq<bool>,
                     value: int)
    returns (w': Assignment)
    requires n > 0 && IsPrime(p) && WellFormed(sh) && FitsVar(leaf, sh.wits)
    requires Sat(p, w, LevelsVar(p, n - 1, sh, leaf).0)
    requires n <= |siblings| && n <= |bits| && Canonical(p, siblings[n - 1])
    requires Value(p, w, LevelsVar(p, n - 1, sh, leaf).1) == Fold(HashFn(p), value, siblings, bits, n - 1)
    ensures Sat(p, w', LevelsVar(p, n, sh, leaf).0) && Extends(w, w')
    ensures Value(p, w', LevelsVar(p, n, sh, leaf).1) == Fold(HashFn(p), value, siblings, bits, n)
  {
    LevelsGadget(p, n - 1, sh, leaf);
    var (mid, cur) := LevelsVar(p, n - 1, sh, leaf);
    w' := LevelComplete(p, w, mid, cur, siblings[n - 1], bits[n - 1]);
  }

  lemma {:induction false} LevelsComplete(p: nat, n: nat, w: Assignment, sh: Shape, leaf: FpVar,
                                          siblings: seq<int>, bits: seq<bool>) returns (w': Assignment)
    requires IsPrime(p) && WellFormed(sh) && FitsVar(leaf, sh.wits) && Sat(p, w, sh)
    requires n <= |siblings| && n <= |bits| && AllCanonical(p, siblings)
    ensures Sat(p, w', LevelsVar(p, n, sh, leaf).0) && Extends(w, w')
    ensures Value(p, w', LevelsVar(p, n, sh, leaf).1) == Fold(HashFn(p), Value(p, w, leaf), siblings, bits, n)
  {
    if n == 0 {
      w' := w;
    } else {
      var m := LevelsComplete(p, n - 1, w, sh, leaf, siblings, bits);
      w' := LevelsExtend(p, n, m, sh, leaf, siblings, bits, Value(p, w, leaf));
      ExtendsOnce(w, m, w');
    }
  }

  // ----- the circuit -------------------------------------------------------------------------------

  lemma LeafShape(p: nat)
    requires p > 1
    ensures Adds(p, NewWitness(Shape(0, [])).0, LeafPart(p).0) && FitsVar(LeafPart(p).1, LeafPart(p).0.wits)
    ensures LeafPart(p).0.wits >= 1
  {
    NewWitnessGadget(p, Shape(0, []));
    Hash2Gadget(p, NewWitness(Shape(0, [])).0, Var(Witness(0)), Constant(0));
  }

  lemma PathShape(p: nat, depth: nat)
    requires p > 1
    ensures Adds(p, LeafPart(p).0, PathPart(p, depth).0) && FitsVar(PathPart(p, depth).1, PathPart(p, depth).0.wits)
    ensures PathPart(p, depth).0.wits >= 1
  {
    LeafShape(p);
    LevelsGadget(p, depth, LeafPart(p).0, LeafPart(p).1);
  }

  lemma CircuitShapes(p: nat, depth: nat)
    requires p > 1
    ensures var sh3 := RootPart(p, depth);
      var (sh4, nf) := NullifierPart(p, depth);
      var sh5 := EnforceEqual(p, sh4, nf, NULLIFIER_INPUT);
      && Grows(PathPart(p, depth).0, sh3) && WellFormed(sh3) && Adds(p, sh3, sh4) && Grows(sh4, sh5)
      && Adds(p, sh5, Circuit(p, depth)) && FitsVar(nf, sh4.wits) && sh3.wits >= 1
  {
    PathShape(p, depth);
    var sh3 := RootPart(p, depth);
    EnforceEqualWellFormed(p, PathPart(p, depth).0, PathPart(p, depth).1, ROOT_INPUT);
    Hash2Gadget(p, sh3, Var(Witness(0)), Constant(1));
    var (sh4, nf) := NullifierPart(p, depth);
    EnforceEqualWellFormed(p, sh4, nf, NULLIFIER_INPUT);
    MulVarGadget(p, EnforceEqual(p, sh4, nf, NULLIFIER_INPUT), RECIPIENT_INPUT, RECIPIENT_INPUT);
  }

  /** A satisfying assignment contains a secret and a path for its public root and nullifier. */
  lemma CircuitSound(p: nat, depth: nat, w: Assignment, root: int, nullifier: int, recipient: int)
    returns (secret: int, siblings: seq<int>, bits: seq<bool>)
    requires IsPrime(p) && Canonical(p, root) && Canonical(p, nullifier)
    requires w.inputs == [root, nullifier, recipient] && Holds(p, w, Circuit(p, depth))
    ensures Canonical(p, secret) && AllCanonical(p, siblings)
    ensures Opens(HashFn(p), 0, 1, depth, root, nullifier, secret, siblings, bits)
  {
    CircuitShapes(p, depth);
    PathShape(p, depth);
    LeafShape(p);
    var (sh1, leaf) := LeafPart(p);
    var (sh2, cur) := PathPart(p, depth);
    var sh3 := RootPart(p, depth);
    var (sh4, nf) := NullifierPart(p, depth);
    var sh5 := EnforceEqual(p, sh4, nf, NULLIFIER_INPUT);
    HoldsEarlier(p, w, sh5, Circuit(p, depth));
    HoldsEarlier(p, w, sh4, sh5);
    HoldsEarlier(p, w, sh3, sh4);
    HoldsEarlier(p, w, sh2, sh3);
    HoldsEarlier(p, w, sh1, sh2);
    PublicValues(p, w, root, nullifier, recipient);
    EqualityMeaning(p, w, sh4, nf, NULLIFIER_INPUT);
    EqualityMeaning(p, w, sh2, cur, ROOT_INPUT);
    NewWitnessGadget(p, Shape(0, []));
    Hash2Gadget(p, NewWitness(Shape(0, [])).0, Var(Witness(0)), Constant(0));
    Hash2Gadget(p, sh3, Var(Witness(0)), Constant(1));
    siblings, bits := LevelsSound(p, depth, w, sh1, leaf);
    secret := Eval(p, w, Witness(0));
    EvalCanonical(p, w, Witness(0));
  }

  lemma PublicValues(p: nat, w: Assignment, root: int, nullifier: int, recipient: int)
    requires p > 1 && Canonical(p, root) && Canonical(p, nullifier) && w.inputs == [root, nullifier, recipient]
    ensures Value(p, w, ROOT_INPUT) == root && Value(p, w, NULLIFIER_INPUT) == nullifier
    ensures Value(p, w, Constant(0)) == 0 && Value(p, w, Constant(1)) == 1
  {
    CanonicalMod(p, root);
    CanonicalMod(p, nullifier);
    CanonicalMod(p, 0);
    CanonicalMod(p, 1);
  }

  /** The start of the witness: secret and leaf. */
  lemma LeafComplete(p: nat, inputs: seq<int>, secret: int) returns (w: Assignment)
    requires p > 1 && |inputs| == 3 && Canonical(p, inputs[0]) && Canonical(p, inputs[1]) && Canonical(p, secret)
    ensures w.inputs == inputs && Sat(p, w, LeafPart(p).0)
    ensures Eval(p, w, Witness(0)) == secret && Value(p, w, LeafPart(p).1) == Hash2(p, secret, 0)
  {
    var start, sh0 := Assignment(inputs, []), NewWitness(Shape(0, [])).0;
    assert Sat(p, start, Shape(0, []));
    ChooseWitness(p, start, Shape(0, []), secret);
    LeafShape(p);
    var w0 := Push(start, secret);
    w :| Sat(p, w, LeafPart(p).0) && Extends(w0, w);
    PublicValues(p, w, inputs[0], inputs[1], inputs[2]);
    ValueExtends(p, w0, w, Var(Witness(0)));
    NewWitnessGadget(p, Shape(0, []));
    Hash2Gadget(p, sh0, Var(Witness(0)), Constant(0));
  }

  /** The first half of the witness: secret, leaf, path and root check. */
  lemma PathComplete(p: nat, depth: nat, inputs: seq<int>, secret: int, siblings: seq<int>, bits: seq<bool>)
    returns (w: Assignment)
    requires IsPrime(p) && |inputs| == 3 && Canonical(p, inputs[0]) && Canonical(p, inputs[1])
    requires Canonical(p, secret) && AllCanonical(p, siblings)
    requires Opens(HashFn(p), 0, 1, depth, inputs[0], inputs[1], secret, siblings, bits)
    ensures w.inputs == inputs && Sat(p, w, RootPart(p, depth)) && Eval(p, w, Witness(0)) == secret
  {
    var w1 := LeafComplete(p, inputs, secret);
    LeafShape(p);
    var (sh1, leaf) := LeafPart(p);
    w := LevelsComplete(p, depth, w1, sh1, leaf, siblings, bits);
    PublicValues(p, w, inputs[0], inputs[1], inputs[2]);
    EqualityMeaning(p, w, PathPart(p, depth).0, PathPart(p, depth).1, ROOT_INPUT);
    ValueExtends(p, w1, w, Var(Witness(0)));
  }

  /** The second half: the nullifier check and the recipient's product. */
  lemma NullifierComplete(p: nat, depth: nat, w0: Assignment, root: int, nullifier: int, recipient: int)
    returns (w: Assignment)
    requires IsPrime(p) && Canonical(p, root) && Canonical(p, nullifier) && w0.inputs == [root, nullifier, recipient]
    requires Sat(p, w0, RootPart(p, depth)) && Hash2(p, Eval(p, w0, Witness(0)), 1) == nullifier
    ensures w.inputs == w0.inputs && Sat(p, w, Circuit(p, depth))
  {
    CircuitShapes(p, depth);
    var sh3, secret := RootPart(p, depth), Var(Witness(0));
    var (sh4, nf) := NullifierPart(p, depth);
    var w4 :| Sat(p, w4, sh4) && Extends(w0, w4);
    PublicValues(p, w4, root, nullifier, recipient);
    ValueExtends(p, w0, w4, secret);
    Hash2Gadget(p, sh3, secret, Constant(1));
    assert Value(p, w4, nf) == Hash2(p, Value(p, w4, secret), Value(p, w4, Constant(1)));
    EqualityMeaning(p, w4, sh4, nf, NULLIFIER_INPUT);
    assert Sat(p, w4, EnforceEqual(p, sh4, nf, NULLIFIER_INPUT));
    w :| Sat(p, w, Circuit(p, depth)) && Extends(w4, w);
  }

  /** Whatever `assign` returns, the circuit can be satisfied for it, with any recipient. */
  lemma CircuitComplete(p: nat, depth: nat, root: int, nullifier: int, recipient: int,
                        secret: int, siblings: seq<int>, bits: seq<bool>) returns (w: Assignment)
    requires IsPrime(p) && Canonical(p, root) && Canonical(p, nullifier)
    requires Canonical(p, secret) && AllCanonical(p, siblings)
    requires Opens(HashFn(p), 0, 1, depth, root, nullifier, secret, siblings, bits)
    ensures w.inputs == [root, nullifier, recipient] && Sat(p, w, Circuit(p, depth))
  {
    w := PathComplete(p, depth, [root, nullifier, recipient], secret, siblings, bits);
    w := NullifierComplete(p, depth, w, root, nullifier, recipient);
  }

  /** Some witness assignment satisfies the emitted system for these public inputs. */
  ghost predicate Satisfiable(p: nat, depth: nat, root: int, nullifier: int, recipient: int)
    requires p > 0
  {
    exists w: Assignment :: w.inputs == [root, nullifier, recipient] && Sat(p, w, Circuit(p, depth))
  }

  /** Some note and path make `assign` return this root and nullifier. */
  ghost predicate Assignable(p: nat, depth: nat, root: int, nullifier: int)
    requires p > 0
  {
    exists secret, siblings, bits ::
      Canonical(p, secret) && AllCanonical(p, siblings) &&
      Opens(HashFn(p), 0, 1, depth, root, nullifier, secret, siblings, bits)
  }

  /** Emission preserves meaning, in both directions; the recipient is unconstrained. */
  lemma CircuitMeaning(p: nat, depth: nat, root: int, nullifier: int, recipient: int)
    requires IsPrime(p) && Canonical(p, root) && Canonical(p, nullifier)
    ensures Satisfiable(p, depth, root, nullifier, recipient) <==> Assignable(p, depth, root, nullifier)
  {
    if Satisfiable(p, depth, root, nullifier, recipient) {
      var w: Assignment :| w.inputs == [root, nullifier, recipient] && Sat(p, w, Circuit(p, depth));
      var secret, siblings, bits := CircuitSound(p, depth, w, root, nullifier, recipient);
    }
    if Assignable(p, depth, root, nullifier) {
      var secret, siblings, bits :|
        Canonical(p, secret) && AllCanonical(p, siblings) &&
        Opens(HashFn(p), 0, 1, depth, root, nullifier, secret, siblings, bits);
      var w := CircuitComplete(p, depth, root, nullifier, recipient, secret, siblings, bits);
    }
  }

  // ----- the recipient ---------------------------------------------------------------------------------

  /** The last witness is the square of the recipient's signal. */
  lemma RecipientSquared(p: nat, depth: nat, w: Assignment, recipient: int)
    requires p > 1 && Holds(p, w, Circuit(p, depth)) && |w.inputs| == 3 && w.inputs[2] == recipient
    requires Canonical(p, recipient)
    ensures var n := Circuit(p, depth).wits; n > 0 && Eval(p, w, Witness(n - 1)) == (recipient * recipient) % p
  {
    var (sh4, nf) := NullifierPart(p, depth);
    var sh5 := EnforceEqual(p, sh4, nf, NULLIFIER_INPUT);
    MulVarValue(p, w, sh5, RECIPIENT_INPUT, RECIPIENT_INPUT);
    CanonicalMod(p, recipient);
  }

  lemma SameSquare(p: nat, x: int, y: int)
    requires IsPrime(p) && Canonical(p, x) && Canonical(p, y) && (x * x) % p == (y * y) % p
    ensures x == y || x + y == p
  {
    var k := Multiple(p, x * x, y * y);
    assert (x - y) * (x + y) == p * k;
    ModShift(p, 0, k);
    CanonicalMod(p, 0);
    NoZeroDivisors(p, x - y, x + y);
    if (x - y) % p == 0 {
      var m := Multiple(p, x - y, 0);
      SmallMultiple(p, m);
    } else {
      var m := Multiple(p, x + y, 0);
      BelowTwice(p, m, x + y);
    }
  }

  lemma BelowTwice(p: nat, m: int, total: int)
    requires 0 <= total < 2 * p && total == p * m && p > 0
    ensures total == 0 || total == p
  {
    if total < p {
      SmallMultiple(p, m);
    } else {
      assert total - p == p * (m - 1);
      SmallMultiple(p, m - 1);
    }
  }

  /** One witness satisfies the system for one recipient only, or for that one's negative. */
  lemma RecipientIsBound(p: nat, depth: nat, w: Assignment, w': Assignment, recipient: int, other: int)
    requires IsPrime(p) && Canonical(p, recipient) && Canonical(p, other)
    requires |w.inputs| == |w'.inputs| == 3 && w.inputs[2] == recipient && w'.inputs[2] == other && w.aux == w'.aux
    requires Holds(p, w, Circuit(p, depth)) && Holds(p, w', Circuit(p, depth))
    ensures recipient == other || recipient + other == p
  {
    RecipientSquared(p, depth, w, recipient);
    RecipientSquared(p, depth, w', other);
    SameSquare(p, recipient, other);
  }
}
