/**
  The in-circuit copy of the hash (zk-circuits/src/poseidon2.rs): the equations it emits
  and the proof that, in every assignment satisfying them, its output is `Poseidon2.Hash2`
  of its inputs, while every assignment of the inputs can be completed to satisfy them.
*/
module HashGadget {
  import opened Field
  import opened Poseidon2
  import opened R1cs

  datatype Triple = Triple(x0: FpVar, x1: FpVar, x2: FpVar)

  function LanesValue(p: nat, w: Assignment, s: Triple): Lanes
    requires p > 0
  {
    Lanes(Value(p, w, s.x0), Value(p, w, s.x1), Value(p, w, s.x2))
  }

  ghost predicate FitsTriple(s: Triple, n: nat) {
    FitsVar(s.x0, n) && FitsVar(s.x1, n) && FitsVar(s.x2, n)
  }

  function SumVar(p: nat, s: Triple): FpVar
    requires p > 0
  {
    AddVar(p, AddVar(p, s.x0, s.x1), s.x2)
  }

  function ExtMixVar(p: nat, s: Triple): Triple
    requires p > 0
  {
    var sum := SumVar(p, s);
    Triple(AddVar(p, s.x0, sum), AddVar(p, s.x1, sum), AddVar(p, s.x2, sum))
  }

  function IntMixVar(p: nat, s: Triple): Triple
    requires p > 0
  {
    var sum := SumVar(p, s);
    Triple(AddVar(p, ScaleVar(p, s.x0, Diag(p, 0)), sum),
           AddVar(p, ScaleVar(p, s.x1, Diag(p, 1)), sum),
           AddVar(p, ScaleVar(p, s.x2, Diag(p, 2)), sum))
  }

  /** `x^5` as two squarings and a product. */
  function SboxVar(p: nat, sh: Shape, x: FpVar): (Shape, FpVar)
    requires p > 0
  {
    var (sh1, x2) := MulVar(p, sh, x, x);
    var (sh2, x4) := MulVar(p, sh1, x2, x2);
    MulVar(p, sh2, x4, x)
  }

  function AddArkVar(p: nat, k: nat, s: Triple): Triple
    requires p > 0
  {
    var rc := ArkIndex(k);
    if IsFull(k) then
      Triple(AddVar(p, s.x0, Constant(Ark(p, rc))), AddVar(p, s.x1, Constant(Ark(p, rc + 1))),
             AddVar(p, s.x2, Constant(Ark(p, rc + 2))))
    else s.(x0 := AddVar(p, s.x0, Constant(Ark(p, rc))))
  }

  function SubstituteVar(p: nat, k: nat, sh: Shape, s: Triple): (Shape, Triple)
    requires p > 0
  {
    var (sh1, y0) := SboxVar(p, sh, s.x0);
    if IsFull(k) then
      var (sh2, y1) := SboxVar(p, sh1, s.x1);
      var (sh3, y2) := SboxVar(p, sh2, s.x2);
      (sh3, Triple(y0, y1, y2))
    else (sh1, s.(x0 := y0))
  }

  function MixVar(p: nat, k: nat, s: Triple): Triple
    requires p > 0
  {
    if IsFull(k) then ExtMixVar(p, s) else IntMixVar(p, s)
  }

  function RoundVar(p: nat, k: nat, sh: Shape, s: Triple): (Shape, Triple)
    requires p > 0
  {
    var (sh', t) := SubstituteVar(p, k, sh, AddArkVar(p, k, s));
    (sh', MixVar(p, k, t))
  }

  function RoundsVar(p: nat, n: nat, sh: Shape, s: Triple): (Shape, Triple)
    requires p > 0
  {
    if n == 0 then (sh, ExtMixVar(p, s))
    else
      var (sh', t) := RoundsVar(p, n - 1, sh, s);
      RoundVar(p, n - 1, sh', t)
  }

  function Hash2Var(p: nat, sh: Shape, a: FpVar, b: FpVar): (Shape, FpVar)
    requires p > 0
  {
    var (sh', s) := RoundsVar(p, ROUNDS, sh, Triple(a, b, Constant(0)));
    (sh', s.x0)
  }

  // ----- the linear layers mean what the permutation's do -----------------------------------------

  lemma SumVarValue(p: nat, w: Assignment, s: Triple)
    requires p > 0
    ensures Value(p, w, SumVar(p, s)) == Sum(p, LanesValue(p, w, s))
  {
    AddVarValue(p, w, s.x0, s.x1);
    AddVarValue(p, w, AddVar(p, s.x0, s.x1), s.x2);
  }

  lemma MixVarValue(p: nat, w: Assignment, k: nat, s: Triple)
    requires p > 0
    ensures LanesValue(p, w, MixVar(p, k, s)) == Mix(p, k, LanesValue(p, w, s))
  {
    if IsFull(k) {
      ExtMixVarValue(p, w, s);
    } else {
      IntMixVarValue(p, w, s);
    }
  }

  lemma ExtMixVarValue(p: nat, w: Assignment, s: Triple)
    requires p > 0
    ensures LanesValue(p, w, ExtMixVar(p, s)) == ExtMix(p, LanesValue(p, w, s))
  {
    var sum := SumVar(p, s);
    SumVarValue(p, w, s);
    AddVarValue(p, w, s.x0, sum);
    AddVarValue(p, w, s.x1, sum);
    AddVarValue(p, w, s.x2, sum);
  }

  lemma IntMixVarValue(p: nat, w: Assignment, s: Triple)
    requires p > 0
    ensures LanesValue(p, w, IntMixVar(p, s)) == IntMix(p, LanesValue(p, w, s))
  {
    var sum := SumVar(p, s);
    SumVarValue(p, w, s);
    ScaleVarValue(p, w, s.x0, Diag(p, 0));
    ScaleVarValue(p, w, s.x1, Diag(p, 1));
    ScaleVarValue(p, w, s.x2, Diag(p, 2));
    AddVarValue(p, w, ScaleVar(p, s.x0, Diag(p, 0)), sum);
    AddVarValue(p, w, ScaleVar(p, s.x1, Diag(p, 1)), sum);
    AddVarValue(p, w, ScaleVar(p, s.x2, Diag(p, 2)), sum);
  }

  lemma ArkValue(p: nat, w: Assignment, x: FpVar, k: nat)
    requires p > 0
    ensures Value(p, w, AddVar(p, x, Constant(Ark(p, k)))) == Add(p, Value(p, w, x), Ark(p, k))
  {
    AddVarValue(p, w, x, Constant(Ark(p, k)));
    CanonicalMod(p, Ark(p, k));
  }

  lemma AddArkVarValue(p: nat, w: Assignment, k: nat, s: Triple)
    requires p > 0
    ensures LanesValue(p, w, AddArkVar(p, k, s)) == AddArk(p, k, LanesValue(p, w, s))
  {
    var rc := ArkIndex(k);
    ArkValue(p, w, s.x0, rc);
    if IsFull(k) {
      ArkValue(p, w, s.x1, rc + 1);
      ArkValue(p, w, s.x2, rc + 2);
    }
  }

  // ----- the S-box ----------------------------------------------------------------------------------

  lemma FifthPower(p: nat, x: int)
    requires p > 0
    ensures Mul(p, Mul(p, Mul(p, x, x), Mul(p, x, x)), x) == Sbox(p, x)
  {
    var x2, x3 := Mul(p, x, x), Mul(p, x, Mul(p, x, x));
    FirstPowers(p, x);
    MulAssoc(p, x, x, x2);
    assert Mul(p, Mul(p, x2, x2), x) == Mul(p, x, Mul(p, x2, x2));
  }

  lemma FirstPowers(p: nat, x: int)
    requires p > 0
    ensures Pow(p, x, 2) == Mul(p, x, x)
    ensures Pow(p, x, 5) == Mul(p, x, Mul(p, x, Mul(p, x, Mul(p, x, x))))
  {
    ReduceMul(p, 1, x);
    ReduceMul(p, x, x);
    assert Pow(p, x, 1) == Mul(p, x, 1 % p) == x % p;
    assert Pow(p, x, 3) == Mul(p, x, Pow(p, x, 2));
  }

  lemma SboxGadget(p: nat, sh: Shape, x: FpVar)
    requires p > 0 && WellFormed(sh) && FitsVar(x, sh.wits)
    ensures Gadget(p, sh, SboxVar(p, sh, x))
  {
    var (sh1, x2) := MulVar(p, sh, x, x);
    MulVarGadget(p, sh, x, x);
    var (sh2, x4) := MulVar(p, sh1, x2, x2);
    MulVarGadget(p, sh1, x2, x2);
    AddsTrans(p, sh, sh1, sh2);
    VarFitsMore(x, sh.wits, sh2.wits);
    MulVarGadget(p, sh2, x4, x);
    AddsTrans(p, sh, sh2, SboxVar(p, sh, x).0);
  }

  lemma SboxValue(p: nat, w: Assignment, sh: Shape, x: FpVar)
    requires p > 0 && WellFormed(sh) && FitsVar(x, sh.wits) && Holds(p, w, SboxVar(p, sh, x).0)
    ensures Value(p, w, SboxVar(p, sh, x).1) == Sbox(p, Value(p, w, x))
  {
    var (sh1, x2) := MulVar(p, sh, x, x);
    MulVarGadget(p, sh, x, x);
    var (sh2, x4) := MulVar(p, sh1, x2, x2);
    MulVarGadget(p, sh1, x2, x2);
    VarFitsMore(x, sh.wits, sh2.wits);
    MulVarGadget(p, sh2, x4, x);
    MulVarValue(p, w, sh2, x4, x);
    HoldsEarlier(p, w, sh2, SboxVar(p, sh, x).0);
    MulVarValue(p, w, sh1, x2, x2);
    HoldsEarlier(p, w, sh1, sh2);
    MulVarValue(p, w, sh, x, x);
    FifthPower(p, Value(p, w, x));
  }

  // ----- rounds -------------------------------------------------------------------------------------

  lemma SumFits(p: nat, s: Triple, n: nat)
    requires p > 0 && FitsTriple(s, n)
    ensures FitsVar(SumVar(p, s), n)
  {
    LinearVarsFit(p, s.x0, s.x1, 0, n);
    LinearVarsFit(p, AddVar(p, s.x0, s.x1), s.x2, 0, n);
  }

  lemma ExtMixFits(p: nat, s: Triple, n: nat)
    requires p > 0 && FitsTriple(s, n)
    ensures FitsTriple(ExtMixVar(p, s), n)
  {
    var sum := SumVar(p, s);
    SumFits(p, s, n);
    LinearVarsFit(p, s.x0, sum, 0, n);
    LinearVarsFit(p, s.x1, sum, 0, n);
    LinearVarsFit(p, s.x2, sum, 0, n);
  }

  lemma MixFits(p: nat, k: nat, s: Triple, n: nat)
    requires p > 0 && FitsTriple(s, n)
    ensures FitsTriple(MixVar(p, k, s), n)
  {
    var sum := SumVar(p, s);
    SumFits(p, s, n);
    ExtMixFits(p, s, n);
    LinearVarsFit(p, s.x0, sum, Diag(p, 0), n);
    LinearVarsFit(p, s.x1, sum, Diag(p, 1), n);
    LinearVarsFit(p, s.x2, sum, Diag(p, 2), n);
    LinearVarsFit(p, ScaleVar(p, s.x0, Diag(p, 0)), sum, 0, n);
    LinearVarsFit(p, ScaleVar(p, s.x1, Diag(p, 1)), sum, 0, n);
    LinearVarsFit(p, ScaleVar(p, s.x2, Diag(p, 2)), sum, 0, n);
  }

  lemma AddArkFits(p: nat, k: nat, s: Triple, n: nat)
    requires p > 0 && FitsTriple(s, n)
    ensures FitsTriple(AddArkVar(p, k, s), n)
  {
    var rc := ArkIndex(k);
    LinearVarsFit(p, s.x0, Constant(Ark(p, rc)), 0, n);
    LinearVarsFit(p, s.x1, Constant(Ark(p, rc + 1)), 0, n);
    LinearVarsFit(p, s.x2, Constant(Ark(p, rc + 2)), 0, n);
  }

  /** Substitution adds to the shape, its outputs fit, and they are the substituted values. */
  lemma SubstituteGadget(p: nat, k: nat, sh: Shape, s: Triple)
    requires p > 0 && WellFormed(sh) && FitsTriple(s, sh.wits)
    ensures var (sh', t) := SubstituteVar(p, k, sh, s);
      && Adds(p, sh, sh') && FitsTriple(t, sh'.wits)
      && forall w :: Holds(p, w, sh') ==> LanesValue(p, w, t) == Substitute(p, k, LanesValue(p, w, s))
  {
    var (sh', t) := SubstituteVar(p, k, sh, s);
    var (sh1, y0) := SboxVar(p, sh, s.x0);
    SboxGadget(p, sh, s.x0);
    VarFitsMore(s.x1, sh.wits, sh1.wits);
    VarFitsMore(s.x2, sh.wits, sh1.wits);
    if IsFull(k) {
      var (sh2, y1) := SboxVar(p, sh1, s.x1);
      SboxGadget(p, sh1, s.x1);
      VarFitsMore(s.x2, sh1.wits, sh2.wits);
      SboxGadget(p, sh2, s.x2);
      AddsTrans(p, sh, sh1, sh2);
      AddsTrans(p, sh, sh2, sh');
      VarFitsMore(y0, sh1.wits, sh'.wits);
      VarFitsMore(y1, sh2.wits, sh'.wits);
      forall w | Holds(p, w, sh')
        ensures LanesValue(p, w, t) == Substitute(p, k, LanesValue(p, w, s))
      {
        SboxValue(p, w, sh2, s.x2);
        HoldsEarlier(p, w, sh2, sh');
        SboxValue(p, w, sh1, s.x1);
        HoldsEarlier(p, w, sh1, sh2);
        SboxValue(p, w, sh, s.x0);
      }
    } else {
      forall w | Holds(p, w, sh')
        ensures LanesValue(p, w, t) == Substitute(p, k, LanesValue(p, w, s))
      {
        SboxValue(p, w, sh, s.x0);
      }
    }
  }

  lemma RoundGadget(p: nat, k: nat, sh: Shape, s: Triple)
    requires p > 0 && WellFormed(sh) && FitsTriple(s, sh.wits)
    ensures var (sh', t) := RoundVar(p, k, sh, s);
      && Adds(p, sh, sh') && FitsTriple(t, sh'.wits)
      && forall w :: Holds(p, w, sh') ==> LanesValue(p, w, t) == Round(p, k, LanesValue(p, w, s))
  {
    var keyed := AddArkVar(p, k, s);
    AddArkFits(p, k, s, sh.wits);
    SubstituteGadget(p, k, sh, keyed);
    var (sh', t) := SubstituteVar(p, k, sh, keyed);
    MixFits(p, k, t, sh'.wits);
    forall w | Holds(p, w, sh')
      ensures LanesValue(p, w, MixVar(p, k, t)) == Round(p, k, LanesValue(p, w, s))
    {
      AddArkVarValue(p, w, k, s);
      MixVarValue(p, w, k, t);
    }
  }

  lemma {:induction false} RoundsGadget(p: nat, n: nat, sh: Shape, s: Triple)
    requires p > 0 && WellFormed(sh) && FitsTriple(s, sh.wits)
    ensures var (sh', t) := RoundsVar(p, n, sh, s);
      && Adds(p, sh, sh') && FitsTriple(t, sh'.wits)
      && forall w :: Holds(p, w, sh') ==> LanesValue(p, w, t) == Rounds(p, n, LanesValue(p, w, s))
  {
    if n == 0 {
      AddsRefl(p, sh);
      ExtMixFits(p, s, sh.wits);
      forall w | Holds(p, w, sh)
        ensures LanesValue(p, w, ExtMixVar(p, s)) == Rounds(p, 0, LanesValue(p, w, s))
      {
        ExtMixVarValue(p, w, s);
      }
    } else {
      RoundsGadget(p, n - 1, sh, s);
      var (mid, t) := RoundsVar(p, n - 1, sh, s);
      RoundGadget(p, n - 1, mid, t);
      var (sh', t') := RoundsVar(p, n, sh, s);
      AddsTrans(p, sh, mid, sh');
      forall w | Holds(p, w, sh')
        ensures LanesValue(p, w, t') == Rounds(p, n, LanesValue(p, w, s))
      {
        HoldsEarlier(p, w, mid, sh');
      }
    }
  }

  /** The gadget computes the hash, and constrains nothing but its own output. */
  lemma Hash2Gadget(p: nat, sh: Shape, a: FpVar, b: FpVar)
    requires p > 0 && WellFormed(sh) && FitsVar(a, sh.wits) && FitsVar(b, sh.wits)
    ensures Gadget(p, sh, Hash2Var(p, sh, a, b))
    ensures forall w :: Holds(p, w, Hash2Var(p, sh, a, b).0) ==>
      Value(p, w, Hash2Var(p, sh, a, b).1) == Hash2(p, Value(p, w, a), Value(p, w, b))
  {
    var s := Triple(a, b, Constant(0));
    RoundsGadget(p, ROUNDS, sh, s);
    CanonicalMod(p, 0);
    forall w | Holds(p, w, Hash2Var(p, sh, a, b).0)
      ensures Value(p, w, Hash2Var(p, sh, a, b).1) == Hash2(p, Value(p, w, a), Value(p, w, b))
    {
      assert LanesValue(p, w, s) == Lanes(Value(p, w, a), Value(p, w, b), 0);
    }
  }
}
