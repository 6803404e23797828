/** The Reed-Solomon accumulator of src/accumulator/reed_solomon.rs.

    The accumulator keeps a table of 256 field elements (`evaluations`), the
    evaluation domain 0, 1, ..., 255 and a degree bound. `accumulate` writes
    a state into the table, `verify` reconstructs the table over the first
    `degree` domain points and compares it with the proof, and `fold` adds a
    random multiple of another accumulator's table.

    The random field elements the source draws (the two challenge points and
    the folding coefficient) are parameters here. */
module ReedSolomon {

  import opened Field

  const EVAL_DOMAIN_SIZE: nat := 256

  /** The evaluation domain `new` builds: FieldElement::from(i) for i < 256. */
  function DomainPoints(): (d: seq<FieldElement>)
    ensures |d| == EVAL_DOMAIN_SIZE
    ensures forall i :: 0 <= i < |d| ==> d[i].value == i
  {
    seq(EVAL_DOMAIN_SIZE, i requires 0 <= i < EVAL_DOMAIN_SIZE => New(i))
  }

  /** The table of a freshly built accumulator. */
  function ZeroTable(): (t: seq<FieldElement>)
    ensures |t| == EVAL_DOMAIN_SIZE
    ensures forall i :: 0 <= i < |t| ==> t[i] == Zero
  {
    seq(EVAL_DOMAIN_SIZE, _ => Zero)
  }

  datatype RSProof = RSProof(challengeEvals: seq<FieldElement>, merkleProof: seq<FieldElement>)

  // ---------------------------------------------------------------------
  // Reference definitions

  /** The product `interpolate` forms for point i over the first m points:
      (x_i - x_j) for every j < m other than i, multiplied in order of j. */
  function PartialTerm(points: seq<FieldElement>, i: nat, m: nat): FieldElement
    requires i < |points| && m <= |points|
  {
    if m == 0 then One
    else if i == m - 1 then PartialTerm(points, i, m - 1)
    else Mul(PartialTerm(points, i, m - 1), Sub(points[i], points[m - 1]))
  }

  /** The whole product for point i: the Lagrange denominator. */
  function Term(points: seq<FieldElement>, i: nat): FieldElement
    requires i < |points|
  {
    PartialTerm(points, i, |points|)
  }

  /** No division in `interpolate` hits zero. */
  predicate NonZeroTerms(points: seq<FieldElement>)
  {
    forall i :: 0 <= i < |points| ==> Term(points, i).value != 0
  }

  /** No point occurs twice. */
  predicate Distinct(points: seq<FieldElement>)
  {
    forall i, j :: 0 <= i < |points| && 0 <= j < |points| && i != j ==> points[i] != points[j]
  }

  /** Entry i of `interpolate`'s result: evals[i] / Term(points, i), with the
      division as `div` computes it. */
  function Reconstructed(evals: seq<FieldElement>, points: seq<FieldElement>, i: nat): FieldElement
    requires i < |points| && i < |evals|
  {
    Mul(evals[i], Power(Term(points, i), P - 1))
  }

  /** What `pow(e)` returns. */
  function PowValue(a: FieldElement, e: nat): FieldElement
  {
    if e == 0 then One else Power(a, e + 1)
  }

  /** The weight `evaluate_at` gives table entry i: dom[i].pow(i). */
  function Weights(dom: seq<FieldElement>): (w: seq<FieldElement>)
    ensures |w| == |dom| && forall i :: 0 <= i < |dom| ==> w[i] == PowValue(dom[i], i)
  {
    seq(|dom|, i requires 0 <= i < |dom| => PowValue(dom[i], i))
  }

  /** The sum `evaluate_at` accumulates over the first n table entries:
      evals[i] * weights[i], added left to right. */
  function Evaluation(evals: seq<FieldElement>, weights: seq<FieldElement>, n: nat): FieldElement
    requires n <= |evals| && n <= |weights|
  {
    if n == 0 then Zero
    else Add(Evaluation(evals, weights, n - 1), Mul(evals[n - 1], weights[n - 1]))
  }

  /** When `verify` accepts a proof: the proof fits the domain and, wherever
      both exist, the reconstructed entries over the first `degree` domain
      points equal the proof's entries. */
  predicate Accepts(evals: seq<FieldElement>, dom: seq<FieldElement>, degree: nat, proof: seq<FieldElement>)
    requires |proof| <= EVAL_DOMAIN_SIZE ==> degree <= |dom| && degree <= |evals|
  {
    && |proof| <= EVAL_DOMAIN_SIZE
    && forall i :: 0 <= i < degree && i < |proof| ==> Reconstructed(evals, dom[..degree], i) == proof[i]
  }

  /** The table `fold` leaves before it re-accumulates: a + alpha * b. */
  function Combine(a: seq<FieldElement>, b: seq<FieldElement>, alpha: FieldElement): (c: seq<FieldElement>)
    requires |a| == |b|
    ensures |c| == |a| && forall k :: 0 <= k < |a| ==> c[k] == Add(a[k], Mul(alpha, b[k]))
  {
    seq(|a|, k requires 0 <= k < |a| => Add(a[k], Mul(alpha, b[k])))
  }

  // ---------------------------------------------------------------------
  // The accumulator

  class ReedSolomonAccumulator {
    const evaluations: array<FieldElement>
    const domain: seq<FieldElement>
    var degree: nat

    ghost predicate Valid()
    {
      evaluations.Length == EVAL_DOMAIN_SIZE && domain == DomainPoints()
    }

    /** `new`: an all-zero table over the domain 0 .. 255, degree 0. */
    constructor ()
      ensures Valid() && fresh(evaluations)
      ensures evaluations[..] == ZeroTable()
      ensures degree == 0
    {
      evaluations := new FieldElement[EVAL_DOMAIN_SIZE](_ => Zero);
      domain := DomainPoints();
      degree := 0;
    }

    /** `interpolate`: for each point, the product of its differences to the
        other points, then the table entry divided by that product. A zero
        product makes `div` panic, so it is excluded. */
    method Interpolate(points: seq<FieldElement>) returns (result: seq<FieldElement>)
      requires |points| <= evaluations.Length
      requires NonZeroTerms(points)
      ensures |result| == |points|
      ensures forall i :: 0 <= i < |points| ==> result[i] == Reconstructed(evaluations[..], points, i)
    {
      var n := |points|;
      var res := new FieldElement[n](_ => Zero);
      for i := 0 to n
        invariant forall k :: 0 <= k < i ==> res[k] == Reconstructed(evaluations[..], points, k)
      {
        res[i] := EntryAt(points, i);
      }
      result := res[..];
    }

    /** One entry of `interpolate`: the table entry divided by the
        product for point i. */
    method EntryAt(points: seq<FieldElement>, i: nat) returns (r: FieldElement)
      requires i < |points| && i < evaluations.Length
      requires Term(points, i).value != 0
      ensures r == Reconstructed(evaluations[..], points, i)
    {
      var term := TermAt(points, i);
      r := Div(evaluations[i], term);
    }

    /** The inner loop of `interpolate`: the product, over every other
        point, of points[i] minus that point. */
    static method TermAt(points: seq<FieldElement>, i: nat) returns (term: FieldElement)
      requires i < |points|
      ensures term == Term(points, i)
    {
      term := One;
      for j := 0 to |points|
        invariant term == PartialTerm(points, i, j)
      {
        if i != j {
          term := Mul(term, Sub(points[i], points[j]));
        }
      }
    }

    /** `evaluate_at`: the sum of evals[i] * domain[i]^i over the whole
        table. The point it is given is never used. */
    method EvaluateAt(point: FieldElement) returns (r: FieldElement)
      requires Valid()
      ensures r == Evaluation(evaluations[..], Weights(domain), EVAL_DOMAIN_SIZE)
    {
      r := Zero;
      for i := 0 to evaluations.Length
        invariant r == Evaluation(evaluations[..], Weights(domain), i)
      {
        var p: FieldElement;
        ghost var rounds: nat;
        p, rounds := Pow(domain[i], i);
        assert p == Weights(domain)[i];
        r := Add(r, Mul(evaluations[i], p));
      }
    }

    /** `accumulate`: copy the state into the table, stopping at the end of
        the table; the degree becomes the length of the whole state. The
        proof holds the evaluation at both challenge points and a copy of
        the table. */
    method Accumulate(state: seq<FieldElement>, c0: FieldElement, c1: FieldElement) returns (proof: RSProof)
      requires Valid()
      modifies this, evaluations
      ensures Valid()
      ensures forall k :: 0 <= k < evaluations.Length ==>
                evaluations[k] == if k < |state| then state[k] else old(evaluations[k])
      ensures degree == |state|
      ensures proof.merkleProof == evaluations[..]
      ensures var e := Evaluation(evaluations[..], Weights(domain), EVAL_DOMAIN_SIZE);
              proof.challengeEvals == [e, e]
    {
      var i := 0;
      while i < |state|
        invariant 0 <= i <= |state| && i <= evaluations.Length
        invariant forall k :: 0 <= k < evaluations.Length ==>
                    evaluations[k] == if k < i then state[k] else old(evaluations[k])
      {
        if i >= evaluations.Length {
          break;
        }
        evaluations[i] := state[i];
        i := i + 1;
      }
      degree := |state|;
      var e0 := EvaluateAt(c0);
      var e1 := EvaluateAt(c1);
      proof := RSProof([e0, e1], evaluations[..]);
    }

    /** `verify`: reject a proof longer than the domain; otherwise
        interpolate over the first `degree` domain points and compare
        entry by entry, as far as both sequences go. Slicing the domain
        panics for a degree beyond 256 and `interpolate` panics on a zero
        product, so both are excluded. */
    method Verify(proof: RSProof) returns (ok: bool)
      requires Valid()
      requires |proof.merkleProof| <= EVAL_DOMAIN_SIZE ==>
                 degree <= EVAL_DOMAIN_SIZE && NonZeroTerms(domain[..degree])
      ensures ok <==> Accepts(evaluations[..], domain, degree, proof.merkleProof)
    {
      if |proof.merkleProof| > EVAL_DOMAIN_SIZE {
        return false;
      }
      var reconstructed := Interpolate(domain[..degree]);
      var k := 0;
      while k < |reconstructed| && k < |proof.merkleProof|
        invariant 0 <= k <= |reconstructed| && k <= |proof.merkleProof|
        invariant forall i :: 0 <= i < k ==> reconstructed[i] == proof.merkleProof[i]
      {
        if reconstructed[k] != proof.merkleProof[k] {
          return false;
        }
        k := k + 1;
      }
      ok := true;
    }

    /** `fold`: add alpha times the other table to this one, entry by entry,
        then accumulate the resulting table. The other accumulator is only
        borrowed for reading, so it cannot be this one. */
    method Fold(other: ReedSolomonAccumulator, alpha: FieldElement, c0: FieldElement, c1: FieldElement)
      returns (proof: RSProof)
      requires Valid() && other.Valid() && other.evaluations != evaluations
      modifies this, evaluations
      ensures Valid()
      ensures evaluations[..] == Combine(old(evaluations[..]), other.evaluations[..], alpha)
      ensures other.evaluations[..] == old(other.evaluations[..]) && other.degree == old(other.degree)
      ensures degree == EVAL_DOMAIN_SIZE
      ensures proof.merkleProof == evaluations[..]
      ensures var e := Evaluation(evaluations[..], Weights(domain), EVAL_DOMAIN_SIZE);
              proof.challengeEvals == [e, e]
    {
      AddScaled(other, alpha);
      ghost var folded := evaluations[..];
      proof := Accumulate(evaluations[..], c0, c1);
      assert evaluations[..] == folded;
    }

    /** The loop of `fold`: add alpha times the other table to this one,
        entry by entry. */
    method AddScaled(other: ReedSolomonAccumulator, alpha: FieldElement)
      requires Valid() && other.Valid() && other.evaluations != evaluations
      modifies evaluations
      ensures evaluations[..] == Combine(old(evaluations[..]), other.evaluations[..], alpha)
    {
      for i := 0 to evaluations.Length
        invariant forall k :: 0 <= k < i ==>
                    evaluations[k] == Add(old(evaluations[k]), Mul(alpha, other.evaluations[k]))
        invariant forall k :: i <= k < evaluations.Length ==> evaluations[k] == old(evaluations[k])
      {
        evaluations[i] := Add(evaluations[i], Mul(alpha, other.evaluations[i]));
      }
    }
  }

  // ---------------------------------------------------------------------
  // Properties

  /** A repeated point makes every product that meets it zero. */
  lemma {:induction false} PartialTermWithRepeat(points: seq<FieldElement>, i: nat, j: nat, m: nat)
    requires i < |points| && j < m <= |points| && i != j && points[i] == points[j]
    ensures PartialTerm(points, i, m) == Zero
    decreases m
  {
    if m - 1 == j {
      SubZeroIffEqual(points[i], points[j]);
      MulZero(PartialTerm(points, i, m - 1));
    } else {
      PartialTermWithRepeat(points, i, j, m - 1);
      if i != m - 1 {
        MulZero(Sub(points[i], points[m - 1]));
      }
    }
  }

  /** Over distinct points every product is nonzero, because the field has
      no zero divisors. */
  lemma {:induction false} PartialTermNonZero(points: seq<FieldElement>, i: nat, m: nat)
    requires FermatLittleTheorem()
    requires Distinct(points) && i < |points| && m <= |points|
    ensures PartialTerm(points, i, m).value != 0
    decreases m
  {
    if m > 0 {
      PartialTermNonZero(points, i, m - 1);
      if i != m - 1 {
        SubZeroIffEqual(points[i], points[m - 1]);
        NoZeroDivisors(PartialTerm(points, i, m - 1), Sub(points[i], points[m - 1]));
      }
    }
  }

  /** `interpolate` divides by zero only if a point repeats. */
  lemma NonZeroTermsImplyDistinct(points: seq<FieldElement>)
    ensures NonZeroTerms(points) ==> Distinct(points)
  {
    if !Distinct(points) {
      var i, j :| 0 <= i < |points| && 0 <= j < |points| && i != j && points[i] == points[j];
      PartialTermWithRepeat(points, i, j, |points|);
      assert Term(points, i).value == 0;
    }
  }

  /** Conversely, over distinct points no division hits zero. */
  lemma DistinctImpliesNonZeroTerms(points: seq<FieldElement>)
    requires FermatLittleTheorem()
    requires Distinct(points)
    ensures NonZeroTerms(points)
  {
    forall i | 0 <= i < |points|
      ensures Term(points, i).value != 0
    {
      PartialTermNonZero(points, i, |points|);
    }
  }

  /** Any prefix of the domain consists of distinct points, so `verify`
      never divides by zero while its degree is within the domain. */
  lemma DomainPrefixHasNonZeroTerms(n: nat)
    requires FermatLittleTheorem()
    requires n <= EVAL_DOMAIN_SIZE
    ensures NonZeroTerms(DomainPoints()[..n])
  {
    var points := DomainPoints()[..n];
    forall i, j | 0 <= i < |points| && 0 <= j < |points| && i != j
      ensures points[i] != points[j]
    {
      assert points[i].value == i && points[j].value == j;
    }
    DistinctImpliesNonZeroTerms(points);
  }

  /** Because `div` multiplies by b^(P-1), which is one for b != 0,
      `interpolate` returns the table entries unchanged. */
  lemma InterpolationIsIdentity(evals: seq<FieldElement>, points: seq<FieldElement>, i: nat)
    requires FermatLittleTheorem()
    requires NonZeroTerms(points) && i < |points| && i < |evals|
    ensures Reconstructed(evals, points, i) == evals[i]
  {
    DivIsIdentity(evals[i], Term(points, i));
  }

  /** Over a domain prefix, `verify` accepts exactly those proofs that fit
      the domain and agree with the table on every entry below both the
      degree and the proof's length. */
  lemma AcceptsIffAgrees(evals: seq<FieldElement>, degree: nat, proof: seq<FieldElement>)
    requires FermatLittleTheorem()
    requires |evals| == EVAL_DOMAIN_SIZE && degree <= EVAL_DOMAIN_SIZE
    ensures Accepts(evals, DomainPoints(), degree, proof)
            <==> |proof| <= EVAL_DOMAIN_SIZE
                 && forall i :: 0 <= i < degree && i < |proof| ==> evals[i] == proof[i]
  {
    var points := DomainPoints()[..degree];
    DomainPrefixHasNonZeroTerms(degree);
    forall i | 0 <= i < degree
      ensures Reconstructed(evals, points, i) == evals[i]
    {
      InterpolationIsIdentity(evals, points, i);
    }
  }

  /** evaluate_at is linear in the table, so the evaluation a folded table
      yields is the random combination of the two evaluations. */
  lemma {:induction false} EvaluationLinear(a: seq<FieldElement>, b: seq<FieldElement>, alpha: FieldElement,
                                            weights: seq<FieldElement>, n: nat)
    requires |a| == |b| && n <= |a| && n <= |weights|
    ensures Evaluation(Combine(a, b, alpha), weights, n)
            == Add(Evaluation(a, weights, n), Mul(alpha, Evaluation(b, weights, n)))
    decreases n
  {
    if n == 0 {
      MulZero(alpha);
      AddZero(Zero);
    } else {
      EvaluationLinear(a, b, alpha, weights, n - 1);
      EvaluationLinearStep(a, b, alpha, weights, n);
    }
  }

  /** The inductive step of `EvaluationLinear`: linearity over the first
      n - 1 entries extends to the first n. */
  lemma EvaluationLinearStep(a: seq<FieldElement>, b: seq<FieldElement>, alpha: FieldElement,
                             weights: seq<FieldElement>, n: nat)
    requires |a| == |b| && 0 < n <= |a| && n <= |weights|
    requires Evaluation(Combine(a, b, alpha), weights, n - 1)
             == Add(Evaluation(a, weights, n - 1), Mul(alpha, Evaluation(b, weights, n - 1)))
    ensures Evaluation(Combine(a, b, alpha), weights, n)
            == Add(Evaluation(a, weights, n), Mul(alpha, Evaluation(b, weights, n)))
  {
    var c := Combine(a, b, alpha);
    var ea, eb := Evaluation(a, weights, n - 1), Evaluation(b, weights, n - 1);
    var w := weights[n - 1];
    var x, y := a[n - 1], b[n - 1];
    assert c[n - 1] == Add(x, Mul(alpha, y));
    assert Evaluation(c, weights, n) == Add(Evaluation(c, weights, n - 1), Mul(c[n - 1], w));
    assert Evaluation(a, weights, n) == Add(ea, Mul(x, w));
    assert Evaluation(b, weights, n) == Add(eb, Mul(y, w));
    LinearStep(ea, eb, x, y, w, alpha);
  }

  /** One term of the linearity of `evaluate_at`:
      (ea + alpha eb) + (x + alpha y) w  ==  (ea + x w) + alpha (eb + y w). */
  lemma LinearStep(ea: FieldElement, eb: FieldElement, x: FieldElement, y: FieldElement,
                   w: FieldElement, alpha: FieldElement)
    ensures Add(Add(ea, Mul(alpha, eb)), Mul(Add(x, Mul(alpha, y)), w))
            == Add(Add(ea, Mul(x, w)), Mul(alpha, Add(eb, Mul(y, w))))
  {
    calc {
      Add(Add(ea, Mul(alpha, eb)), Mul(Add(x, Mul(alpha, y)), w));
      { MulComm(Add(x, Mul(alpha, y)), w);
        MulDistributesOverAdd(w, x, Mul(alpha, y));
        MulComm(w, x);
        MulComm(w, Mul(alpha, y));
        MulAssoc(alpha, y, w); }
      Add(Add(ea, Mul(alpha, eb)), Add(Mul(x, w), Mul(alpha, Mul(y, w))));
      { AddSwapMiddle(ea, Mul(alpha, eb), Mul(x, w), Mul(alpha, Mul(y, w))); }
      Add(Add(ea, Mul(x, w)), Add(Mul(alpha, eb), Mul(alpha, Mul(y, w))));
      { MulDistributesOverAdd(alpha, eb, Mul(y, w)); }
      Add(Add(ea, Mul(x, w)), Mul(alpha, Add(eb, Mul(y, w))));
    }
  }

  lemma AddSwapMiddle(p: FieldElement, q: FieldElement, r: FieldElement, s: FieldElement)
    ensures Add(Add(p, q), Add(r, s)) == Add(Add(p, r), Add(q, s))
  {
    AddAssoc(p, q, Add(r, s));
    AddAssoc(q, r, s);
    AddComm(q, r);
    AddAssoc(r, q, s);
    AddAssoc(p, r, Add(q, s));
  }

  /** A table of zeros, such as a fresh accumulator's, evaluates to zero
      whatever the weights. */
  lemma {:induction false} EvaluationOfZeros(evals: seq<FieldElement>, weights: seq<FieldElement>, n: nat)
    requires n <= |evals| && n <= |weights|
    requires forall i :: 0 <= i < n ==> evals[i] == Zero
    ensures Evaluation(evals, weights, n) == Zero
    decreases n
  {
    if n > 0 {
      EvaluationOfZeros(evals, weights, n - 1);
      EvaluationOfZerosStep(evals, weights, n);
    }
  }

  /** The inductive step of `EvaluationOfZeros`: a zero entry adds nothing. */
  lemma EvaluationOfZerosStep(evals: seq<FieldElement>, weights: seq<FieldElement>, n: nat)
    requires 0 < n <= |evals| && n <= |weights|
    requires evals[n - 1] == Zero && Evaluation(evals, weights, n - 1) == Zero
    ensures Evaluation(evals, weights, n) == Zero
  {
    MulZero(weights[n - 1]);
    AddZero(Zero);
  }

  // ---------------------------------------------------------------------
  // The tests' scenario

  /** Accumulating a state that fits the domain yields a proof the same
      accumulator accepts. */
  method AccumulateThenVerify(acc: ReedSolomonAccumulator, state: seq<FieldElement>,
                              c0: FieldElement, c1: FieldElement)
    returns (proof: RSProof, ok: bool)
    requires FermatLittleTheorem()
    requires acc.Valid() && |state| <= EVAL_DOMAIN_SIZE
    modifies acc, acc.evaluations
    ensures acc.Valid() && acc.degree == |state|
    ensures ok
  {
    proof := acc.Accumulate(state, c0, c1);
    DomainPrefixHasNonZeroTerms(acc.degree);
    AcceptsIffAgrees(acc.evaluations[..], acc.degree, proof.merkleProof);
    ok := acc.Verify(proof);
  }

  /** Folding another accumulator in yields a proof the folded accumulator
      accepts, and its challenge evaluation is the combination of the two
      accumulators' evaluations. */
  method FoldThenVerify(acc: ReedSolomonAccumulator, other: ReedSolomonAccumulator, alpha: FieldElement,
                        c0: FieldElement, c1: FieldElement)
    returns (proof: RSProof, ok: bool)
    requires FermatLittleTheorem()
    requires acc.Valid() && other.Valid() && other.evaluations != acc.evaluations
    modifies acc, acc.evaluations
    ensures acc.Valid() && acc.degree == EVAL_DOMAIN_SIZE
    ensures var e := Add(Evaluation(old(acc.evaluations[..]), Weights(DomainPoints()), EVAL_DOMAIN_SIZE),
                         Mul(alpha, Evaluation(other.evaluations[..], Weights(DomainPoints()), EVAL_DOMAIN_SIZE)));
            proof.challengeEvals == [e, e]
    ensures ok
  {
    ghost var before := acc.evaluations[..];
    proof := acc.Fold(other, alpha, c0, c1);
    EvaluationLinear(before, other.evaluations[..], alpha, Weights(DomainPoints()), EVAL_DOMAIN_SIZE);
    DomainPrefixHasNonZeroTerms(acc.degree);
    AcceptsIffAgrees(acc.evaluations[..], acc.degree, proof.merkleProof);
    ok := acc.Verify(proof);
  }

  /** test_rs_accumulator: accumulate and verify on two fresh accumulators,
      then fold the second into the first and verify again. */
  method AccumulatorScenario(state1: seq<FieldElement>, state2: seq<FieldElement>, alpha: FieldElement,
                             c: seq<FieldElement>)
    returns (ok1: bool, ok2: bool, ok3: bool)
    requires FermatLittleTheorem()
    requires |state1| <= EVAL_DOMAIN_SIZE && |state2| <= EVAL_DOMAIN_SIZE && |c| == 6
    ensures ok1 && ok2 && ok3
  {
    var acc := new ReedSolomonAccumulator();
    var proof1;
    proof1, ok1 := AccumulateThenVerify(acc, state1, c[0], c[1]);
    var acc2 := new ReedSolomonAccumulator();
    var proof2;
    proof2, ok2 := AccumulateThenVerify(acc2, state2, c[2], c[3]);
    var folded;
    folded, ok3 := FoldThenVerify(acc, acc2, alpha, c[4], c[5]);
  }
}
