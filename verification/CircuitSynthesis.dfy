/**
  The synthesizer as it runs: a shared constraint system that the gadgets append to, the
  loops of `hash2_var` and `generate_constraints`, and the native `assign`. Each method
  leaves exactly the shape that the functions of `R1cs`, `HashGadget` and `WithdrawCircuit`
  describe, for which the meaning is proved there.
*/
module CircuitSynthesis {
  import opened Field
  import opened Merkle
  import opened NoteRelation
  import opened Poseidon2
  import PoseidonCopies
  import opened R1cs
  import opened HashGadget
  import opened WithdrawCircuit

  function TripleOf(s: seq<FpVar>): Triple
    requires |s| == 3
  {
    Triple(s[0], s[1], s[2])
  }

  class ConstraintSystem {
    const p: nat
    var wits: nat
    var cons: seq<Constraint>

    constructor (p: nat)
      ensures this.p == p && Snapshot() == Shape(0, [])
    {
      this.p, wits, cons := p, 0, [];
    }

    function Snapshot(): Shape
      reads this
    {
      Shape(wits, cons)
    }

    method AllocWitness() returns (x: FpVar)
      modifies this
      ensures (Snapshot(), x) == NewWitness(old(Snapshot()))
    {
      x := Var(Witness(wits));
      wits := wits + 1;
      assert cons + [] == cons;
    }

    method AllocBoolean() returns (b: Lin)
      requires p > 0
      modifies this
      ensures (Snapshot(), b) == NewBoolean(p, old(Snapshot()))
    {
      b := Witness(wits);
      wits := wits + 1;
      cons := cons + [Constraint(Minus(Const(1), b), b, Const(0))];
    }

    method Multiply(x: FpVar, y: FpVar) returns (z: FpVar)
      requires p > 0
      modifies this
      ensures (Snapshot(), z) == MulVar(p, old(Snapshot()), x, y)
    {
      match (x, y)
      case (Constant(a), _) => z := ScaleVar(p, y, a);
      case (Var(_), Constant(b)) => z := ScaleVar(p, x, b);
      case (Var(l), Var(m)) =>
        cons := cons + [Constraint(l, m, Witness(wits))];
        z := Var(Witness(wits));
        wits := wits + 1;
    }

    method CondSelect(b: Lin, t: FpVar, f: FpVar) returns (r: FpVar)
      requires p > 0
      modifies this
      ensures (Snapshot(), r) == Select(p, old(Snapshot()), b, t, f)
    {
      r := Var(Witness(wits));
      cons := cons + [Constraint(b, Minus(LinOf(t), LinOf(f)), Minus(Witness(wits), LinOf(f)))];
      wits := wits + 1;
    }

    method Equate(x: FpVar, y: FpVar)
      requires p > 0
      modifies this
      ensures Snapshot() == EnforceEqual(p, old(Snapshot()), x, y)
    {
      cons := cons + [Constraint(Minus(LinOf(x), LinOf(y)), Const(1), Const(0))];
    }

    method SboxOf(x: FpVar) returns (y: FpVar)
      requires p > 0
      modifies this
      ensures (Snapshot(), y) == SboxVar(p, old(Snapshot()), x)
    {
      var x2 := Multiply(x, x);
      var x4 := Multiply(x2, x2);
      y := Multiply(x4, x);
    }

    method FullRound(ghost k: nat, s: array<FpVar>, rc: nat)
      requires p > 0 && s.Length == 3 && IsFull(k) && rc == ArkIndex(k)
      modifies this, s
      ensures (Snapshot(), TripleOf(s[..])) == RoundVar(p, k, old(Snapshot()), old(TripleOf(s[..])))
    {
      for i := 0 to 3
        invariant wits == old(wits) && cons == old(cons)
        invariant forall j :: 0 <= j < 3 ==>
          s[j] == if j < i then AddVar(p, old(s[j]), Constant(Ark(p, rc + j))) else old(s[j])
      {
        s[i] := AddVar(p, s[i], Constant(Ark(p, rc + i)));
      }
      ghost var keyed := TripleOf(s[..]);
      assert keyed == AddArkVar(p, k, old(TripleOf(s[..])));
      s[0] := SboxOf(s[0]);
      s[1] := SboxOf(s[1]);
      s[2] := SboxOf(s[2]);
      assert (Snapshot(), TripleOf(s[..])) == SubstituteVar(p, k, old(Snapshot()), keyed);
      var sum := AddVar(p, AddVar(p, s[0], s[1]), s[2]);
      s[0], s[1], s[2] := AddVar(p, s[0], sum), AddVar(p, s[1], sum), AddVar(p, s[2], sum);
    }

    method PartialRound(ghost k: nat, s: array<FpVar>, rc: nat)
      requires p > 0 && s.Length == 3 && !IsFull(k) && rc == ArkIndex(k)
      modifies this, s
      ensures (Snapshot(), TripleOf(s[..])) == RoundVar(p, k, old(Snapshot()), old(TripleOf(s[..])))
    {
      s[0] := AddVar(p, s[0], Constant(Ark(p, rc)));
      s[0] := SboxOf(s[0]);
      var sum := AddVar(p, AddVar(p, s[0], s[1]), s[2]);
      s[0], s[1], s[2] := AddVar(p, ScaleVar(p, s[0], Diag(p, 0)), sum),
        AddVar(p, ScaleVar(p, s[1], Diag(p, 1)), sum), AddVar(p, ScaleVar(p, s[2], Diag(p, 2)), sum);
    }

    /** The three lanes and the shape are those after the first `n` rounds on `start`. */
    ghost predicate After(n: nat, sh: Shape, start: Triple, s: array<FpVar>)
      requires p > 0
      reads this, s
    {
      s.Length == 3 && Snapshot() == RoundsVar(p, n, sh, start).0 && TripleOf(s[..]) == RoundsVar(p, n, sh, start).1
    }

    method NextFull(ghost k: nat, ghost sh: Shape, ghost start: Triple, s: array<FpVar>, rc0: nat) returns (rc: nat)
      requires p > 0 && k < ROUNDS && IsFull(k) && rc0 == ArkIndex(k) && After(k, sh, start, s)
      modifies this, s
      ensures rc == ArkIndex(k + 1) && After(k + 1, sh, start, s)
    {
      FullRound(k, s, rc0);
      rc := rc0 + 3;
    }

    method NextPartial(ghost k: nat, ghost sh: Shape, ghost start: Triple, s: array<FpVar>, rc0: nat) returns (rc: nat)
      requires p > 0 && k < ROUNDS && !IsFull(k) && rc0 == ArkIndex(k) && After(k, sh, start, s)
      modifies this, s
      ensures rc == ArkIndex(k + 1) && After(k + 1, sh, start, s)
    {
      PartialRound(k, s, rc0);
      rc := rc0 + 1;
    }

    /** The first block of external rounds. */
    method FirstBlock(ghost sh: Shape, ghost start: Triple, s: array<FpVar>, rc0: nat) returns (rc: nat)
      requires p > 0 && s.Length == 3 && rc0 == ArkIndex(0) && After(0, sh, start, s)
      modifies this, s
      ensures rc == ArkIndex(HALF) && After(HALF, sh, start, s)
    {
      rc := rc0;
      for i := 0 to FULL_ROUNDS / 2
        invariant rc == ArkIndex(i) && After(i, sh, start, s)
      {
        rc := NextFull(i, sh, start, s, rc);
      }
    }

    /** The second block of external rounds. */
    method LastBlock(ghost sh: Shape, ghost start: Triple, s: array<FpVar>, rc0: nat) returns (rc: nat)
      requires p > 0 && s.Length == 3 && rc0 == ArkIndex(HALF + PARTIAL_ROUNDS)
      requires After(HALF + PARTIAL_ROUNDS, sh, start, s)
      modifies this, s
      ensures rc == ArkIndex(ROUNDS) && After(ROUNDS, sh, start, s)
    {
      rc := rc0;
      for i := 0 to FULL_ROUNDS / 2
        invariant rc == ArkIndex(HALF + PARTIAL_ROUNDS + i) && After(HALF + PARTIAL_ROUNDS + i, sh, start, s)
      {
        rc := NextFull(HALF + PARTIAL_ROUNDS + i, sh, start, s, rc);
      }
    }

    method PartialBlock(ghost sh: Shape, ghost start: Triple, s: array<FpVar>, rc0: nat) returns (rc: nat)
      requires p > 0 && s.Length == 3 && rc0 == ArkIndex(HALF)
      requires After(HALF, sh, start, s)
      modifies this, s
      ensures rc == ArkIndex(HALF + PARTIAL_ROUNDS)
      ensures After(HALF + PARTIAL_ROUNDS, sh, start, s)
    {
      rc := rc0;
      for i := 0 to PARTIAL_ROUNDS
        invariant rc == ArkIndex(HALF + i) && After(HALF + i, sh, start, s)
      {
        rc := NextPartial(HALF + i, sh, start, s, rc);
      }
    }

    /** The initial mix. */
    method Mixed(a: FpVar, b: FpVar) returns (s: array<FpVar>)
      requires p > 0
      ensures fresh(s) && s.Length == 3 && TripleOf(s[..]) == ExtMixVar(p, Triple(a, b, Constant(0)))
    {
      var sum := AddVar(p, AddVar(p, a, b), Constant(0));
      s := new FpVar[3];
      s[0], s[1], s[2] := AddVar(p, a, sum), AddVar(p, b, sum), AddVar(p, Constant(0), sum);
    }

    method Hash(a: FpVar, b: FpVar) returns (r: FpVar)
      requires p > 0
      modifies this
      ensures (Snapshot(), r) == Hash2Var(p, old(Snapshot()), a, b)
    {
      ghost var sh, start := Snapshot(), Triple(a, b, Constant(0));
      var s := Mixed(a, b);
      var rc := FirstBlock(sh, start, s, 0);
      rc := PartialBlock(sh, start, s, rc);
      rc := LastBlock(sh, start, s, rc);
      r := s[0];
    }

    /** `generate_constraints` on a fresh system: the public inputs, then the witnesses and equations. */
    method GenerateConstraints(depth: nat)
      requires p > 0 && Snapshot() == Shape(0, [])
      modifies this
      ensures Snapshot() == Circuit(p, depth)
      ensures IsPrime(p) ==> forall root, nullifier, recipient :: Canonical(p, root) && Canonical(p, nullifier) ==>
        (Satisfiable(p, depth, root, nullifier, recipient) <==> Assignable(p, depth, root, nullifier))
    {
      var secret := AllocWitness();
      var cur := Hash(secret, Constant(0));
      ghost var sh1, leaf := Snapshot(), cur;
      for level := 0 to depth
        invariant (Snapshot(), cur) == LevelsVar(p, level, sh1, leaf)
      {
        var sibling := AllocWitness();
        var bit := AllocBoolean();
        var left := CondSelect(bit, sibling, cur);
        var right := CondSelect(bit, cur, sibling);
        cur := Hash(left, right);
      }
      Equate(cur, ROOT_INPUT);
      var nf := Hash(secret, Constant(1));
      Equate(nf, NULLIFIER_INPUT);
      var bound := Multiply(RECIPIENT_INPUT, RECIPIENT_INPUT);
      if IsPrime(p) {
        forall root, nullifier, recipient | Canonical(p, root) && Canonical(p, nullifier)
          ensures Satisfiable(p, depth, root, nullifier, recipient) <==> Assignable(p, depth, root, nullifier)
        {
          CircuitMeaning(p, depth, root, nullifier, recipient);
        }
      }
    }
  }

  /** `assign`: leaf, path fold and nullifier, natively. */
  method Assign(p: nat, depth: nat, secret: int, siblings: seq<int>, bits: seq<bool>)
    returns (root: int, nullifier: int)
    requires p > 0 && |siblings| == depth && |bits| == depth
    ensures Opens(HashFn(p), 0, 1, depth, root, nullifier, secret, siblings, bits)
  {
    var leaf := PoseidonCopies.Hash2Native(p, secret, 0);
    var cur := leaf;
    for level := 0 to depth
      invariant cur == Fold(HashFn(p), leaf, siblings, bits, level)
    {
      if bits[level] {
        cur := PoseidonCopies.Hash2Native(p, siblings[level], cur);
      } else {
        cur := PoseidonCopies.Hash2Native(p, cur, siblings[level]);
      }
    }
    root := cur;
    nullifier := PoseidonCopies.Hash2Native(p, secret, 1);
  }
}
