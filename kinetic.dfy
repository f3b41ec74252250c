/**
 * The kinetic ("D") diagonal of one time step.
 *
 * For every basis index i the simulation prints the label b = f"{i:04b}",
 * adds the single-qubit weight theta_z[k] for every qubit k whose character
 * b[3 - k] is '1', adds the pair weight theta_phi[j] for every pair (c, t)
 * of phi_pairs (zipped one-to-one with theta_phi) whose two qubits are both
 * '1', and appends exp(-1j * angle * delta_t) to the diagonal.
 *
 * pi^2 is kept as an arbitrary positive real `piSq`, and the step phase
 * x |-> exp(-1j * x * delta_t) as an arbitrary function `phase` supplied by
 * the caller: the model states which weights are selected, not how the
 * floating-point values come out.
 */
module KineticPhase {
  import opened BinaryLabels

  /** N_qubits */
  const NQubits: nat := 4

  /** Number of basis states, 2 ** N_qubits. */
  const Dim: nat := 16

  /** Stand-in for pi^2: any positive real. */
  type Positive = r: real | r > 0.0 witness 1.0

  /** 4 to the power n. */
  function Pow4(n: nat): (r: nat)
    ensures r >= 1
  {
    if n == 0 then 1 else 4 * Pow4(n - 1)
  }

  /** theta_z: the single-qubit weight pi^2 / 4^(N - k) of qubit k. */
  function ThetaZ(piSq: Positive): (w: seq<real>)
    ensures |w| == NQubits && AllPositive(w)
  {
    seq(NQubits, k requires 0 <= k < NQubits => piSq / (Pow4(NQubits - k) as real))
  }

  /** The fixed (control, target) pair list. */
  const PhiPairs: seq<(nat, nat)> := [(3, 2), (3, 1), (3, 0), (2, 1), (2, 0), (1, 0)]

  /** theta_phi: pi^2 / 2^i for i = 1 .. 6, one weight per entry of PhiPairs. */
  function ThetaPhi(piSq: Positive): (w: seq<real>)
    ensures |w| == |PhiPairs| && AllPositive(w)
  {
    seq(6, j requires 0 <= j < 6 => piSq / (Pow2(j + 1) as real))
  }

  /** Python's zip: pairs up elements by position and stops at the shorter input. */
  function Zip<A, B>(xs: seq<A>, ys: seq<B>): (z: seq<(A, B)>)
    ensures |z| == if |xs| <= |ys| then |xs| else |ys|
    ensures forall j :: 0 <= j < |z| ==> z[j] == (xs[j], ys[j])
  {
    if xs == [] || ys == [] then [] else [(xs[0], ys[0])] + Zip(xs[1..], ys[1..])
  }

  /** Sum of a list of reals, accumulated left to right. */
  function Sum(w: seq<real>): real
  {
    if w == [] then 0.0 else Sum(w[..|w| - 1]) + w[|w| - 1]
  }

  /** The weights of a zipped pair list. */
  function Weights(z: seq<((nat, nat), real)>): (w: seq<real>)
  {
    seq(|z|, j requires 0 <= j < |z| => z[j].1)
  }

  /** Qubit k of a four-character label: b[3 - k] == '1'. */
  predicate QubitSet(b: string, k: nat)
    requires |b| == NQubits && k < NQubits
  {
    b[NQubits - 1 - k] == '1'
  }

  /** sum(thetaZ[k] for k in range(n) if b[3 - k] == '1') */
  function ZPhase(thetaZ: seq<real>, b: string, n: nat): (r: real)
    requires |b| == NQubits && n <= NQubits <= |thetaZ|
    ensures NonNegative(thetaZ) ==> r >= 0.0
  {
    if n == 0 then 0.0
    else ZPhase(thetaZ, b, n - 1) + (if QubitSet(b, n - 1) then thetaZ[n - 1] else 0.0)
  }

  /** Every pair of the list names two qubits of the register. */
  predicate PairsInRange(z: seq<((nat, nat), real)>)
  {
    forall j :: 0 <= j < |z| ==> z[j].0.0 < NQubits && z[j].0.1 < NQubits
  }

  /** sum(theta for (c, t), theta in z if b[3 - c] == '1' and b[3 - t] == '1') */
  function PhiPhase(z: seq<((nat, nat), real)>, b: string): (r: real)
    requires |b| == NQubits && PairsInRange(z)
    ensures (forall j :: 0 <= j < |z| ==> z[j].1 >= 0.0) ==> r >= 0.0
  {
    if z == [] then 0.0
    else
      var last := z[|z| - 1];
      PhiPhase(z[..|z| - 1], b) + (if QubitSet(b, last.0.0) && QubitSet(b, last.0.1) then last.1 else 0.0)
  }

  /** The label f"{i:04b}" of basis index i. */
  function Label(i: nat): string
  {
    Format(i, NQubits)
  }

  lemma LabelLength(i: nat)
    requires i < Dim
    ensures |Label(i)| == NQubits
  {
    FormatFixedWidth(i, NQubits);
  }

  /** z_phase of basis index i. */
  function SingleAngle(piSq: Positive, i: nat): real
    requires i < Dim
  {
    LabelLength(i);
    ZPhase(ThetaZ(piSq), Label(i), NQubits)
  }

  /** phi_phase of basis index i. */
  function PairAngle(piSq: Positive, i: nat): real
    requires i < Dim
  {
    LabelLength(i);
    PhiPhase(Zip(PhiPairs, ThetaPhi(piSq)), Label(i))
  }

  /** The angle z_phase + phi_phase of basis index i. */
  function KineticAngle(piSq: Positive, i: nat): (r: real)
    requires i < Dim
    ensures r >= 0.0
  {
    WeightsNonNegative(piSq);
    SingleAngle(piSq, i) + PairAngle(piSq, i)
  }

  /**
   * The loop that builds D_diag: one entry per basis index, in index order,
   * each the step phase of that index's angle.
   */
  method BuildKineticDiagonal<P>(piSq: Positive, phase: real -> P) returns (dDiag: seq<P>)
    ensures |dDiag| == Dim
    ensures forall i :: 0 <= i < Dim ==> dDiag[i] == phase(KineticAngle(piSq, i))
  {
    var thetaZ := ThetaZ(piSq);
    var zipped := Zip(PhiPairs, ThetaPhi(piSq));
    dDiag := [];
    var i := 0;
    while i < Dim
      invariant 0 <= i <= Dim
      invariant |dDiag| == i
      invariant forall j :: 0 <= j < i ==> dDiag[j] == phase(KineticAngle(piSq, j))
    {
      var b := Label(i);
      LabelLength(i);
      var zPhase := ZPhase(thetaZ, b, NQubits);
      var phiPhase := PhiPhase(zipped, b);
      dDiag := dDiag + [phase(zPhase + phiPhase)];
      i := i + 1;
    }
  }

  // ---------------------------------------------------------------------
  // The weight tables
  // ---------------------------------------------------------------------

  lemma QuotientShrinks(c: real, x: real, y: real)
    requires c > 0.0 && 0.0 < x < y
    ensures 0.0 < c / y < c / x
  {
    assert c / y * y == c;
    assert c / x * x == c;
    assert (c / x) * y > (c / x) * x;
  }

  lemma {:induction false} Pow4Increasing(m: nat, n: nat)
    requires m < n
    ensures Pow4(m) < Pow4(n)
  {
    if m < n - 1 {
      Pow4Increasing(m, n - 1);
    }
  }

  lemma {:induction false} Pow2Increasing(m: nat, n: nat)
    requires m < n
    ensures Pow2(m) < Pow2(n)
  {
    if m < n - 1 {
      Pow2Increasing(m, n - 1);
    }
  }

  /** theta_z is [pi^2/256, pi^2/64, pi^2/16, pi^2/4]. */
  lemma ThetaZValues(piSq: Positive)
    ensures ThetaZ(piSq) == [piSq / 256.0, piSq / 64.0, piSq / 16.0, piSq / 4.0]
  {
    var w := ThetaZ(piSq);
    assert Pow4(4) == 256 && Pow4(3) == 64 && Pow4(2) == 16 && Pow4(1) == 4;
    assert w[0] == piSq / 256.0 && w[1] == piSq / 64.0 && w[2] == piSq / 16.0 && w[3] == piSq / 4.0;
  }

  /** theta_z: four positive weights, strictly increasing with the qubit. */
  lemma ThetaZIncreasing(piSq: Positive)
    ensures |ThetaZ(piSq)| == NQubits
    ensures forall k :: 0 <= k < NQubits ==> ThetaZ(piSq)[k] > 0.0
    ensures forall k1, k2 :: 0 <= k1 < k2 < NQubits ==> ThetaZ(piSq)[k1] < ThetaZ(piSq)[k2]
  {
    var w := ThetaZ(piSq);
    forall k1, k2 | 0 <= k1 < k2 < NQubits
      ensures 0.0 < w[k1] < w[k2]
    {
      Pow4Increasing(NQubits - k2, NQubits - k1);
      QuotientShrinks(piSq, Pow4(NQubits - k2) as real, Pow4(NQubits - k1) as real);
    }
    QuotientShrinks(piSq, Pow4(1) as real, Pow4(2) as real);
  }

  /** theta_phi is [pi^2/2, pi^2/4, ..., pi^2/64]. */
  lemma ThetaPhiValues(piSq: Positive)
    ensures ThetaPhi(piSq) == [piSq / 2.0, piSq / 4.0, piSq / 8.0, piSq / 16.0, piSq / 32.0, piSq / 64.0]
  {
    var w := ThetaPhi(piSq);
    assert Pow2(1) == 2 && Pow2(2) == 4 && Pow2(3) == 8 && Pow2(4) == 16 && Pow2(5) == 32 && Pow2(6) == 64;
    assert w[0] == piSq / 2.0 && w[1] == piSq / 4.0 && w[2] == piSq / 8.0;
    assert w[3] == piSq / 16.0 && w[4] == piSq / 32.0 && w[5] == piSq / 64.0;
  }

  /** theta_phi: six positive weights, strictly decreasing along the pair list. */
  lemma ThetaPhiDecreasing(piSq: Positive)
    ensures |ThetaPhi(piSq)| == |PhiPairs|
    ensures forall j :: 0 <= j < |PhiPairs| ==> ThetaPhi(piSq)[j] > 0.0
    ensures forall j1, j2 :: 0 <= j1 < j2 < |PhiPairs| ==> ThetaPhi(piSq)[j1] > ThetaPhi(piSq)[j2]
  {
    var w := ThetaPhi(piSq);
    forall j1, j2 | 0 <= j1 < j2 < |PhiPairs|
      ensures w[j1] > w[j2] > 0.0
    {
      Pow2Increasing(j1 + 1, j2 + 1);
      QuotientShrinks(piSq, Pow2(j1 + 1) as real, Pow2(j2 + 1) as real);
    }
    QuotientShrinks(piSq, Pow2(1) as real, Pow2(2) as real);
  }

  /**
   * phi_pairs lists each of the C(4, 2) = 6 qubit pairs exactly once, as
   * (control, target) with target < control, in descending order.
   */
  lemma PhiPairsEnumerateAllPairs()
    ensures |PhiPairs| == NQubits * (NQubits - 1) / 2
    ensures forall j :: 0 <= j < |PhiPairs| ==> PhiPairs[j].1 < PhiPairs[j].0 < NQubits
    ensures forall j1, j2 :: 0 <= j1 < j2 < |PhiPairs| ==> PhiPairs[j1] != PhiPairs[j2]
    ensures forall c: nat, t: nat :: t < c < NQubits ==> (c, t) in PhiPairs
    ensures forall j1, j2 :: 0 <= j1 < j2 < |PhiPairs| ==>
      PhiPairs[j1].0 > PhiPairs[j2].0 || (PhiPairs[j1].0 == PhiPairs[j2].0 && PhiPairs[j1].1 > PhiPairs[j2].1)
  {
    forall c: nat, t: nat | t < c < NQubits
      ensures (c, t) in PhiPairs
    {
      if c == 3 {
        assert PhiPairs[3 - 1 - t] == (c, t);
      } else if c == 2 {
        assert PhiPairs[4 - t] == (c, t);
      } else {
        assert PhiPairs[5] == (c, t);
      }
    }
  }

  /** zip(phi_pairs, theta_phi) keeps all six pairs, each with the weight at its own position. */
  lemma ZippedPairs(piSq: Positive)
    ensures |Zip(PhiPairs, ThetaPhi(piSq))| == |PhiPairs|
    ensures forall j :: 0 <= j < |PhiPairs| ==>
      Zip(PhiPairs, ThetaPhi(piSq))[j] == (PhiPairs[j], piSq / (Pow2(j + 1) as real))
    ensures Weights(Zip(PhiPairs, ThetaPhi(piSq))) == ThetaPhi(piSq)
    ensures PairsInRange(Zip(PhiPairs, ThetaPhi(piSq)))
  {
    var z := Zip(PhiPairs, ThetaPhi(piSq));
    var w := ThetaPhi(piSq);
    assert |z| == 6;
    forall j | 0 <= j < |PhiPairs|
      ensures z[j] == (PhiPairs[j], piSq / (Pow2(j + 1) as real))
    {
      assert w[j] == piSq / (Pow2(j + 1) as real);
    }
    PairsOrdered();
  }

  /** Each pair of phi_pairs names two different qubits, target below control. */
  lemma PairsOrdered()
    ensures forall j :: 0 <= j < |PhiPairs| ==> PhiPairs[j].1 < PhiPairs[j].0 < NQubits
  {
  }

  // ---------------------------------------------------------------------
  // Reading qubits off a label
  // ---------------------------------------------------------------------

  /** Character 3 - k of f"{i:04b}" is '1' exactly when bit k of i is set, i.e. (i / 2^k) % 2 == 1. */
  lemma LabelQubitIsBit(i: nat, k: nat)
    requires i < Dim && k < NQubits
    ensures |Label(i)| == NQubits
    ensures QubitSet(Label(i), k) <==> Bit(i, k)
    ensures QubitSet(Label(i), k) <==> (i / Pow2(k)) % 2 == 1
  {
    LabelLength(i);
    FormatBit(i, NQubits, k);
    BitIsDivMod(i, k);
  }

  /** Every qubit set in b1 is also set in b2. */
  predicate Covers(b1: string, b2: string)
    requires |b1| == NQubits && |b2| == NQubits
  {
    forall k :: 0 <= k < NQubits && QubitSet(b1, k) ==> QubitSet(b2, k)
  }

  predicate NonNegative(w: seq<real>)
  {
    forall k :: 0 <= k < |w| ==> w[k] >= 0.0
  }

  predicate AllPositive(w: seq<real>)
  {
    forall k :: 0 <= k < |w| ==> w[k] > 0.0
  }

  // ---------------------------------------------------------------------
  // z_phase over a label
  // ---------------------------------------------------------------------

  /** With non-negative weights, setting more qubits never lowers z_phase. */
  lemma {:induction false} ZPhaseMonotone(w: seq<real>, b1: string, b2: string, n: nat)
    requires |b1| == NQubits && |b2| == NQubits && n <= NQubits <= |w|
    requires NonNegative(w) && Covers(b1, b2)
    ensures ZPhase(w, b1, n) <= ZPhase(w, b2, n)
  {
    if n > 0 {
      ZPhaseMonotone(w, b1, b2, n - 1);
    }
  }

  /** With positive weights, a qubit set in b2 but not in b1 makes z_phase strictly larger. */
  lemma {:induction false} ZPhaseStrict(w: seq<real>, b1: string, b2: string, n: nat, k0: nat)
    requires |b1| == NQubits && |b2| == NQubits && n <= NQubits <= |w|
    requires AllPositive(w) && Covers(b1, b2)
    requires k0 < n && !QubitSet(b1, k0) && QubitSet(b2, k0)
    ensures ZPhase(w, b1, n) < ZPhase(w, b2, n)
  {
    if k0 == n - 1 {
      ZPhaseMonotone(w, b1, b2, n - 1);
    } else {
      ZPhaseStrict(w, b1, b2, n - 1, k0);
    }
  }

  /** z_phase of a label with exactly the qubit k0 set (among the first n) is theta_z[k0]; with none set it is 0. */
  lemma {:induction false} ZPhaseAtMostOne(w: seq<real>, b: string, n: nat, k0: nat)
    requires |b| == NQubits && n <= NQubits <= |w|
    requires forall k :: 0 <= k < n && QubitSet(b, k) ==> k == k0
    ensures ZPhase(w, b, n) == if k0 < n && QubitSet(b, k0) then w[k0] else 0.0
  {
    if n > 0 {
      ZPhaseAtMostOne(w, b, n - 1, k0);
    }
  }

  /** z_phase of a label with all qubits set is the sum of the weights. */
  lemma {:induction false} ZPhaseAllSet(w: seq<real>, b: string, n: nat)
    requires |b| == NQubits && n <= NQubits <= |w|
    requires forall k :: 0 <= k < NQubits ==> QubitSet(b, k)
    ensures ZPhase(w, b, n) == Sum(w[..n])
  {
    if n > 0 {
      assert w[..n][..n - 1] == w[..n - 1];
      ZPhaseAllSet(w, b, n - 1);
    }
  }

  // ---------------------------------------------------------------------
  // phi_phase over a label
  // ---------------------------------------------------------------------

  /** With non-negative weights, setting more qubits never lowers phi_phase. */
  lemma {:induction false} PhiPhaseMonotone(z: seq<((nat, nat), real)>, b1: string, b2: string)
    requires |b1| == NQubits && |b2| == NQubits && PairsInRange(z)
    requires NonNegative(Weights(z)) && Covers(b1, b2)
    ensures PhiPhase(z, b1) <= PhiPhase(z, b2)
  {
    if z != [] {
      var init := z[..|z| - 1];
      assert Weights(init) == Weights(z)[..|z| - 1];
      assert z[|z| - 1].1 == Weights(z)[|z| - 1];
      PhiPhaseMonotone(init, b1, b2);
    }
  }

  /** If no pair of the list has both its qubits set, phi_phase is 0. */
  lemma {:induction false} PhiPhaseNoPair(z: seq<((nat, nat), real)>, b: string)
    requires |b| == NQubits && PairsInRange(z)
    requires forall j :: 0 <= j < |z| ==> !(QubitSet(b, z[j].0.0) && QubitSet(b, z[j].0.1))
    ensures PhiPhase(z, b) == 0.0
  {
    if z != [] {
      PhiPhaseNoPair(z[..|z| - 1], b);
    }
  }

  /** phi_phase of a label with all qubits set is the sum of the pair weights. */
  lemma {:induction false} PhiPhaseAllSet(z: seq<((nat, nat), real)>, b: string)
    requires |b| == NQubits && PairsInRange(z)
    requires forall k :: 0 <= k < NQubits ==> QubitSet(b, k)
    ensures PhiPhase(z, b) == Sum(Weights(z))
  {
    if z != [] {
      var init := z[..|z| - 1];
      assert Weights(init) == Weights(z)[..|z| - 1];
      PhiPhaseAllSet(init, b);
    }
  }

  // ---------------------------------------------------------------------
  // The angle of a basis index
  // ---------------------------------------------------------------------

  lemma WeightsNonNegative(piSq: Positive)
    ensures AllPositive(ThetaZ(piSq)) && NonNegative(ThetaZ(piSq))
    ensures NonNegative(Weights(Zip(PhiPairs, ThetaPhi(piSq))))
    ensures PairsInRange(Zip(PhiPairs, ThetaPhi(piSq)))
  {
    ThetaZIncreasing(piSq);
    ThetaPhiDecreasing(piSq);
    ZippedPairs(piSq);
  }

  /** Bits of i included in the bits of j carry over to the labels. */
  lemma LabelCovers(i: nat, j: nat)
    requires i < Dim && j < Dim
    requires forall k :: 0 <= k < NQubits && Bit(i, k) ==> Bit(j, k)
    ensures |Label(i)| == NQubits && |Label(j)| == NQubits
    ensures Covers(Label(i), Label(j))
  {
    LabelLength(i);
    LabelLength(j);
    forall k | 0 <= k < NQubits
      ensures QubitSet(Label(i), k) ==> QubitSet(Label(j), k)
    {
      LabelQubitIsBit(i, k);
      LabelQubitIsBit(j, k);
    }
  }

  /** The angle is monotone under bit inclusion: more qubits set, larger angle. */
  lemma KineticAngleMonotone(piSq: Positive, i: nat, j: nat)
    requires i < Dim && j < Dim
    requires forall k :: 0 <= k < NQubits && Bit(i, k) ==> Bit(j, k)
    ensures KineticAngle(piSq, i) <= KineticAngle(piSq, j)
  {
    LabelCovers(i, j);
    WeightsNonNegative(piSq);
    ZPhaseMonotone(ThetaZ(piSq), Label(i), Label(j), NQubits);
    PhiPhaseMonotone(Zip(PhiPairs, ThetaPhi(piSq)), Label(i), Label(j));
  }

  /** Strictly more qubits set gives a strictly larger angle. */
  lemma KineticAngleStrictlyMonotone(piSq: Positive, i: nat, j: nat, k0: nat)
    requires i < Dim && j < Dim && k0 < NQubits
    requires forall k :: 0 <= k < NQubits && Bit(i, k) ==> Bit(j, k)
    requires !Bit(i, k0) && Bit(j, k0)
    ensures KineticAngle(piSq, i) < KineticAngle(piSq, j)
  {
    LabelCovers(i, j);
    WeightsNonNegative(piSq);
    LabelQubitIsBit(i, k0);
    LabelQubitIsBit(j, k0);
    ZPhaseStrict(ThetaZ(piSq), Label(i), Label(j), NQubits, k0);
    PhiPhaseMonotone(Zip(PhiPairs, ThetaPhi(piSq)), Label(i), Label(j));
  }

  /**
   * With at most one qubit set no pair fires, so phi_phase is 0 and the
   * angle is theta_z of the set qubit, or 0 when none is set.
   */
  lemma KineticAngleAtMostOneBit(piSq: Positive, i: nat, k0: nat)
    requires i < Dim && k0 < NQubits
    requires forall k :: 0 <= k < NQubits && Bit(i, k) ==> k == k0
    ensures PairAngle(piSq, i) == 0.0
    ensures KineticAngle(piSq, i) == if Bit(i, k0) then ThetaZ(piSq)[k0] else 0.0
  {
    SingleAngleAtMostOneBit(piSq, i, k0);
    PairAngleAtMostOneBit(piSq, i, k0);
  }

  lemma SingleAngleAtMostOneBit(piSq: Positive, i: nat, k0: nat)
    requires i < Dim && k0 < NQubits
    requires forall k :: 0 <= k < NQubits && Bit(i, k) ==> k == k0
    ensures SingleAngle(piSq, i) == if Bit(i, k0) then ThetaZ(piSq)[k0] else 0.0
  {
    LabelLength(i);
    var b := Label(i);
    forall k | 0 <= k < NQubits
      ensures QubitSet(b, k) <==> Bit(i, k)
    {
      LabelQubitIsBit(i, k);
    }
    ZPhaseAtMostOne(ThetaZ(piSq), b, NQubits, k0);
  }

  lemma PairAngleAtMostOneBit(piSq: Positive, i: nat, k0: nat)
    requires i < Dim && k0 < NQubits
    requires forall k :: 0 <= k < NQubits && Bit(i, k) ==> k == k0
    ensures PairAngle(piSq, i) == 0.0
  {
    LabelLength(i);
    var b := Label(i);
    forall k | 0 <= k < NQubits
      ensures QubitSet(b, k) <==> Bit(i, k)
    {
      LabelQubitIsBit(i, k);
    }
    var z := Zip(PhiPairs, ThetaPhi(piSq));
    ZippedPairs(piSq);
    PairsOrdered();
    forall j | 0 <= j < |z|
      ensures !(QubitSet(b, z[j].0.0) && QubitSet(b, z[j].0.1))
    {
      assert z[j].0 == PhiPairs[j];
    }
    PhiPhaseNoPair(z, b);
  }

  /** The all-zero index 0 gets angle 0. */
  lemma KineticAngleOfZero(piSq: Positive)
    ensures KineticAngle(piSq, 0) == 0.0
  {
    forall k | 0 <= k < NQubits
      ensures !Bit(0, k)
    {
      BitAboveWidth(0, k);
    }
    KineticAngleAtMostOneBit(piSq, 0, 0);
  }

  /**
   * The all-ones index 15 collects every weight: the four theta_z and the
   * six theta_phi, pi^2 * 337/256 in all.
   */
  lemma KineticAngleOfAllOnes(piSq: Positive)
    ensures KineticAngle(piSq, Dim - 1) == Sum(ThetaZ(piSq)) + Sum(ThetaPhi(piSq))
    ensures KineticAngle(piSq, Dim - 1) == piSq * 337.0 / 256.0
  {
    LabelLength(15);
    var b := Label(15);
    forall k | 0 <= k < NQubits
      ensures QubitSet(b, k)
    {
      LabelQubitIsBit(15, k);
      assert Bit(15, k) by {
        if k == 0 {
        } else if k == 1 {
        } else if k == 2 {
          assert Bit(15, 2) == Bit(3, 0);
        } else {
          assert Bit(15, 3) == Bit(1, 0);
        }
      }
    }
    var w := ThetaZ(piSq);
    ZPhaseAllSet(w, b, NQubits);
    assert w[..NQubits] == w;
    ZippedPairs(piSq);
    PhiPhaseAllSet(Zip(PhiPairs, ThetaPhi(piSq)), b);
    ThetaZValues(piSq);
    ThetaPhiValues(piSq);
    SumOfFour(w);
    SumOfSix(ThetaPhi(piSq));
  }

  lemma SumOfFour(w: seq<real>)
    requires |w| == 4
    ensures Sum(w) == w[0] + w[1] + w[2] + w[3]
  {
    assert w[..1][..0] == [];
    assert Sum(w[..1]) == w[0];
    assert w[..2][..1] == w[..1];
    assert Sum(w[..2]) == w[0] + w[1];
    assert w[..3][..2] == w[..2];
    assert Sum(w[..3]) == w[0] + w[1] + w[2];
    assert w[..4] == w;
  }

  lemma SumOfSix(w: seq<real>)
    requires |w| == 6
    ensures Sum(w) == w[0] + w[1] + w[2] + w[3] + w[4] + w[5]
  {
    assert w[..5][..4] == w[..4];
    SumOfFour(w[..4]);
  }

  /** Every index other than 0 has at least one qubit set, hence a positive angle. */
  lemma KineticAnglePositive(piSq: Positive, i: nat)
    requires 0 < i < Dim
    ensures KineticAngle(piSq, i) > 0.0
  {
    var k0 := NonzeroHasBit(i, NQubits);
    forall k | 0 <= k < NQubits
      ensures !Bit(0, k)
    {
      BitAboveWidth(0, k);
    }
    KineticAngleOfZero(piSq);
    KineticAngleStrictlyMonotone(piSq, 0, i, k0);
  }
}
