/**
 * The tables the script prepares around the circuit: the kinetic diagonal
 * D_diag, the potential diagonal Q_diag, the basis labels used as bar names
 * of the plot, and the scaled potential drawn over the bars. All of them
 * are indexed by the same basis index 0 .. 15.
 */
module PlotTables {
  import opened BinaryLabels
  import opened KineticPhase
  import opened PotentialProfile

  /** states = [f"{i:04b}" for i in range(2 ** N_qubits)] */
  function States(): (labels: seq<string>)
    ensures |labels| == Dim
  {
    seq(Dim, i requires 0 <= i < Dim => Label(i))
  }

  /**
   * Every label is four binary characters, decodes back to its own index,
   * and so no two labels coincide.
   */
  lemma StatesWellFormed()
    ensures forall i :: 0 <= i < Dim ==>
      |States()[i]| == NQubits && IsBinary(States()[i]) && Decode(States()[i]) == i
    ensures forall i, j :: 0 <= i < j < Dim ==> States()[i] != States()[j]
  {
    forall i | 0 <= i < Dim
      ensures |States()[i]| == NQubits && IsBinary(States()[i]) && Decode(States()[i]) == i
    {
      FormatFixedWidth(i, NQubits);
      FormatBinary(i, NQubits);
      FormatRoundTrip(i, NQubits);
    }
  }

  /**
   * The table-building part of the script, without the circuit: the kinetic
   * diagonal, Q_diag, the plot labels and V_scaled, all of length 16 and
   * aligned index by index.
   */
  method PrepareTables<P>(piSq: Positive, phase: real -> P)
    returns (dDiag: seq<P>, qDiag: seq<P>, labels: seq<string>, vScaled: seq<real>)
    ensures |dDiag| == |qDiag| == |labels| == |vScaled| == Dim == GridSize
    ensures forall i :: 0 <= i < Dim ==> dDiag[i] == phase(KineticAngle(piSq, i))
    ensures forall i :: 0 <= i < Dim ==> qDiag[i] == phase(V[i])
    ensures labels == States()
    ensures forall i :: 0 <= i < Dim ==>
      |labels[i]| == NQubits && IsBinary(labels[i]) && Decode(labels[i]) == i
    ensures ScaleByMax(V) == Ok(vScaled)
    ensures forall i :: 0 <= i < Dim ==> 0.0 <= vScaled[i] <= 1.0
  {
    dDiag := BuildKineticDiagonal(piSq, phase);
    qDiag := PhaseTable(V, phase);
    var scaled := ScaleByMax(V);
    ProfileScaled();
    vScaled := scaled.value;
    labels := States();
    StatesWellFormed();
  }
}
