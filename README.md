# Quantum tunneling simulation: the table-building core in Dafny

The simulation evolves a four-qubit state (16 grid points) through a double-well
potential. Each time step applies a QFT, a kinetic diagonal `D`, an inverse QFT,
and a potential diagonal `Q`. The circuit and the evolution are library calls.
What the script computes itself is a set of tables built before those calls.
This project models those tables and proves what they contain.

- **Basis labels** (`labels.dfy`, module `BinaryLabels`). `f"{i:04b}"` is the
  binary digits of `i`, left-padded with `'0'` to at least the width.
  `Format` models that format for every `i` and width. `Bit` is the bit test.
  `Decode` is the inverse of the label format. On non-empty strings of `'0'`
  and `'1'` it agrees with `int(s, 2)`; the script itself never calls `int`. The module proves that the label is binary and has
  the fixed width. It proves that the character `k` places from the right is
  `'1'` exactly when `(i / 2^k) % 2 == 1`, and it proves round trips in both
  directions.
- **Kinetic diagonal** (`kinetic.dfy`, module `KineticPhase`). This module has
  the `theta_z` and `theta_phi` weight tables, the fixed `phi_pairs` list,
  Python's `zip`, and the two generator sums `z_phase` and `phi_phase`, read
  off the label as `b[3 - k] == '1'`. The loop that builds `D_diag` is the
  method `BuildKineticDiagonal`. It is proved against `KineticAngle`. Lemmas
  then cover the weights, the pair list, the angles of indices 0 and 15, the
  case of at most one bit set, and monotonicity under bit inclusion.
- **Potential profile** (`potential.dfy`, module `PotentialProfile`). It models
  `numpy.linspace`, the quartic well `a * (x^2 - b^2)^2` with `a = 50` and
  `b = 0.5`, the table `Q_diag`, Python's `max`, and `V_scaled = V / max(V)`.
  `max` of an empty list raises `ValueError`, and `v / 0.0` raises
  `ZeroDivisionError`. `ScaleByMax` models both as errors.
- **Plot tables** (`tables.dfy`, module `PlotTables`). `States` is the list of
  labels. `PrepareTables` builds all the tables. It proves that they are all
  16 long and agree index by index.

Abstractions:
- All arithmetic is on exact reals. `pi^2` is an arbitrary positive real,
  the `piSq` parameter of subset type `Positive`.
- The step phase `x |-> exp(-1j * x * delta_t)` is an arbitrary function
  `phase: real -> P` supplied by the caller. The same function is used for
  `D_diag` and `Q_diag`, since both use the same `delta_t = 0.01`. The
  model therefore proves which angle and which potential value each entry
  comes from. It does not prove the complex value of the entry.
- The source has no configuration checks. There is no `InvalidConfiguration`,
  `DimensionMismatch` or `InvalidStepCount`, and the qubit count, `delta_t`
  and `steps` are constants. The model follows the source, so no such errors
  appear.

## Model

| member | source | states |
|---|---|---|
| `BinaryLabels.Format` | Qunatum_Tunneling_Simulation.py:28 | `f"{i:0wb}"` is never empty and has at least `w` characters. `FormatBinary`, `FormatFixedWidth`, `FormatBit` and the two round trips give its meaning. |
| `BinaryLabels.BitIsDivMod` | Qunatum_Tunneling_Simulation.py:29 | The recursive bit test `Bit(i, k)` holds exactly when `(i / 2^k) % 2 == 1`. |
| `BinaryLabels.FormatBinary` | Qunatum_Tunneling_Simulation.py:28 | Every label `f"{i:0wb}"` has only `'0'` and `'1'` characters. |
| `BinaryLabels.FormatFixedWidth` | Qunatum_Tunneling_Simulation.py:28 | For `1 <= w` and `i < 2^w`, the label has exactly `w` characters (4 for `i` in `0..15`). |
| `BinaryLabels.FormatBit` | Qunatum_Tunneling_Simulation.py:28-31 | The label's character `k` places from the right is `'1'` exactly when bit `k` of `i` is set. Zero padding never shows a set bit. |
| `BinaryLabels.FormatRoundTrip` | Qunatum_Tunneling_Simulation.py:28 | Decoding `f"{i:0wb}"` gives back `i` for every `i` and every width. |
| `BinaryLabels.DecodeBound` | Qunatum_Tunneling_Simulation.py:28 | A string of length `n` decodes to a number below `2^n`. |
| `BinaryLabels.DecodeBit` | Qunatum_Tunneling_Simulation.py:29 | Position `k` from the right of a string is `'1'` exactly when bit `k` of its decoded value is set. |
| `BinaryLabels.FormatOfDecode` | Qunatum_Tunneling_Simulation.py:28 | The reverse round trip: formatting the decoded value of a non-empty binary string at its own length gives the string back. |
| `KineticPhase.ThetaZ` | Qunatum_Tunneling_Simulation.py:22 | `theta_z` has one weight per qubit, each positive. Its values and order are `ThetaZValues` and `ThetaZIncreasing`. |
| `KineticPhase.ThetaPhi` | Qunatum_Tunneling_Simulation.py:24 | `theta_phi` has one weight per pair of `phi_pairs`, each positive. Its values and order are `ThetaPhiValues` and `ThetaPhiDecreasing`. |
| `KineticPhase.PairsOrdered` | Qunatum_Tunneling_Simulation.py:23 | Every entry `(c, t)` of `phi_pairs` has `t < c < 4`: two different qubits of the register. |
| `KineticPhase.Zip` | Qunatum_Tunneling_Simulation.py:30 | `zip` has the length of its shorter input, and entry `j` pairs the two inputs' entries `j`. |
| `KineticPhase.ThetaZValues` | Qunatum_Tunneling_Simulation.py:22 | `theta_z` is `[pi^2/256, pi^2/64, pi^2/16, pi^2/4]`. |
| `KineticPhase.ThetaZIncreasing` | Qunatum_Tunneling_Simulation.py:22 | `theta_z` has four weights, all positive and strictly increasing in `k`. |
| `KineticPhase.ThetaPhiValues` | Qunatum_Tunneling_Simulation.py:24 | `theta_phi` is `[pi^2/2, pi^2/4, ..., pi^2/64]`, that is `pi^2/2^i` for `i = 1..6`. |
| `KineticPhase.ThetaPhiDecreasing` | Qunatum_Tunneling_Simulation.py:24 | `theta_phi` has one weight per pair, all positive and strictly decreasing along the pair list. |
| `KineticPhase.PhiPairsEnumerateAllPairs` | Qunatum_Tunneling_Simulation.py:23 | `phi_pairs` has C(4,2) = 6 distinct pairs `(c, t)` with `t < c < 4`. It covers every such pair and is in descending (control, target) order. |
| `KineticPhase.ZippedPairs` | Qunatum_Tunneling_Simulation.py:23-30 | `zip(phi_pairs, theta_phi)` keeps all six pairs, and pair `j` gets weight `pi^2/2^(j+1)`. Its weights are exactly `theta_phi`. |
| `KineticPhase.LabelQubitIsBit` | Qunatum_Tunneling_Simulation.py:28-31 | For `i < 16` and `k < 4`, `b[3 - k] == '1'` holds exactly when bit `k` of `i` is set, i.e. when `(i / 2^k) % 2 == 1`. |
| `KineticPhase.ZPhase` | Qunatum_Tunneling_Simulation.py:29 | With non-negative weights, `z_phase` is non-negative. Its monotone, strict, at-most-one and all-set lemmas follow. |
| `KineticPhase.ZPhaseMonotone` | Qunatum_Tunneling_Simulation.py:29 | With non-negative weights, a label whose set qubits include another's has a `z_phase` at least as large. |
| `KineticPhase.ZPhaseStrict` | Qunatum_Tunneling_Simulation.py:29 | With positive weights, one extra set qubit makes `z_phase` strictly larger. |
| `KineticPhase.ZPhaseAtMostOne` | Qunatum_Tunneling_Simulation.py:29 | If only qubit `k0` can be set, `z_phase` is `theta_z[k0]` when it is set and 0 otherwise. |
| `KineticPhase.ZPhaseAllSet` | Qunatum_Tunneling_Simulation.py:29 | With every qubit set, `z_phase` is the sum of the weights. |
| `KineticPhase.PhiPhase` | Qunatum_Tunneling_Simulation.py:30-31 | With non-negative pair weights, `phi_phase` is non-negative. Its monotone, no-pair and all-set lemmas follow. |
| `KineticPhase.PhiPhaseMonotone` | Qunatum_Tunneling_Simulation.py:30-31 | With non-negative pair weights, setting more qubits never lowers `phi_phase`. |
| `KineticPhase.PhiPhaseNoPair` | Qunatum_Tunneling_Simulation.py:30-31 | If no pair has both qubits set, `phi_phase` is 0. |
| `KineticPhase.PhiPhaseAllSet` | Qunatum_Tunneling_Simulation.py:30-31 | With every qubit set, `phi_phase` is the sum of all pair weights. |
| `KineticPhase.KineticAngle` | Qunatum_Tunneling_Simulation.py:29-32 | The angle `z_phase + phi_phase` of every basis index is non-negative. The lemmas below fix it at 0, at 15 and under bit inclusion. |
| `KineticPhase.BuildKineticDiagonal` | Qunatum_Tunneling_Simulation.py:26-32 | The loop yields 16 entries. Entry `i` is the step phase of index `i`'s angle `z_phase + phi_phase`. |
| `KineticPhase.KineticAngleMonotone` | Qunatum_Tunneling_Simulation.py:29-32 | If every set bit of `i` is set in `j`, then `angle(i) <= angle(j)`. |
| `KineticPhase.KineticAngleStrictlyMonotone` | Qunatum_Tunneling_Simulation.py:29-32 | If in addition `j` has a bit that `i` lacks, then `angle(i) < angle(j)`. |
| `KineticPhase.KineticAngleAtMostOneBit` | Qunatum_Tunneling_Simulation.py:29-31 | With at most one bit `k0` set, `phi_phase` is 0. The angle is `theta_z[k0]` if that bit is set, and 0 otherwise. |
| `KineticPhase.KineticAngleOfZero` | Qunatum_Tunneling_Simulation.py:29-31 | Index 0 has angle 0. |
| `KineticPhase.KineticAngleOfAllOnes` | Qunatum_Tunneling_Simulation.py:29-31 | Index 15 has angle `sum(theta_z) + sum(theta_phi)`, which is `pi^2 * 337/256`. |
| `KineticPhase.KineticAnglePositive` | Qunatum_Tunneling_Simulation.py:29-32 | Every index other than 0 has a strictly positive angle. |
| `PotentialProfile.Linspace` | Qunatum_Tunneling_Simulation.py:42 | `linspace` returns `num` points, the first of them `start`. `LinspaceEndpoints`, `LinspaceIncreasing`, `LinspaceBounded` and `LinspaceMirror` describe the rest. |
| `PotentialProfile.LinspaceEndpoints` | Qunatum_Tunneling_Simulation.py:42 | `linspace` starts at `start` and, with two or more points, ends exactly at `stop`. |
| `PotentialProfile.LinspaceIncreasing` | Qunatum_Tunneling_Simulation.py:42 | When `start < stop`, the grid points strictly increase. |
| `PotentialProfile.LinspaceBounded` | Qunatum_Tunneling_Simulation.py:42 | Every grid point lies in `[start, stop]`. |
| `PotentialProfile.LinspaceMirror` | Qunatum_Tunneling_Simulation.py:42 | On a grid from `-h` to `h` with at least two points, `positions[n-1-i] == -positions[i]`. |
| `PotentialProfile.PotentialNonNegative` | Qunatum_Tunneling_Simulation.py:43 | With `a >= 0`, every value of `a * (x^2 - b^2)^2` is non-negative. |
| `PotentialProfile.Potential` | Qunatum_Tunneling_Simulation.py:43 | With `a >= 0`, `a * (x^2 - b^2)^2` is non-negative at every `x`. |
| `PotentialProfile.PotentialTable` | Qunatum_Tunneling_Simulation.py:43 | `V` has one value per grid position, and with `a >= 0` every value is non-negative. Its symmetry is `PotentialMirror`. |
| `PotentialProfile.PotentialMirror` | Qunatum_Tunneling_Simulation.py:43 | On a mirror-symmetric grid, the potential table is mirror-symmetric. |
| `PotentialProfile.PotentialAtMostEdge` | Qunatum_Tunneling_Simulation.py:40-43 | With `a = 50` and `b = 0.5` on `[-1, 1]`, the potential is at most 28.125 and equals 28.125 at `x = ±1`. |
| `PotentialProfile.ProfileSymmetric` | Qunatum_Tunneling_Simulation.py:40-44 | `positions[15-i] == -positions[i]`, `V[i] >= 0` and `V[15-i] == V[i]` for all 16 grid indices. |
| `PotentialProfile.Max` | Qunatum_Tunneling_Simulation.py:55 | `max` of a non-empty list is one of its elements and is at least every element. |
| `PotentialProfile.ProfileMaximum` | Qunatum_Tunneling_Simulation.py:55 | `max_V` is 28.125, which is positive, and `V` reaches it at indices 0 and 15. |
| `PotentialProfile.PhaseTable` | Qunatum_Tunneling_Simulation.py:46 | `Q_diag` has one entry per value of `V`. Its symmetry is `PhaseTableMirror`. |
| `PotentialProfile.PhaseTableMirror` | Qunatum_Tunneling_Simulation.py:46 | `Q_diag` has 16 entries and is symmetric: `Q_diag[15-i] == Q_diag[i]`. |
| `PotentialProfile.ScaleByMax` | Qunatum_Tunneling_Simulation.py:55-56 | The result is `EmptySequence` exactly for an empty list, as `max` raises then. For a non-empty list it is `ZeroDivision` exactly when the maximum is 0. Otherwise it succeeds with the list divided by the maximum, of the same length. |
| `PotentialProfile.DivideAll` | Qunatum_Tunneling_Simulation.py:56 | `[v / m for v in vs]` keeps the length of `vs`. `DivideAllInverse` says each entry times `m` is `v` again. |
| `PotentialProfile.DivideAllInverse` | Qunatum_Tunneling_Simulation.py:56 | Each quotient `v / m` times `m` is `v` again, so `V_scaled[i] * max_V == V[i]`. |
| `PotentialProfile.ScaleByMaxUnitRange` | Qunatum_Tunneling_Simulation.py:55-56 | For a non-negative list with a positive entry, scaling succeeds. Every value is in `[0, 1]`, and each maximal entry maps to exactly 1. |
| `PotentialProfile.ProfileScaled` | Qunatum_Tunneling_Simulation.py:55-56 | `V_scaled` exists and has 16 values in `[0, 1]`. It equals 1 at indices 0 and 15 and is mirror-symmetric. |
| `PlotTables.States` | Qunatum_Tunneling_Simulation.py:60 | `states` has one label per basis index, 16 in all. `StatesWellFormed` gives their form. |
| `PlotTables.StatesWellFormed` | Qunatum_Tunneling_Simulation.py:60 | Each of the 16 labels is 4 binary characters and decodes to its own index, so all labels are distinct. |
| `PlotTables.PrepareTables` | Qunatum_Tunneling_Simulation.py:22-60 | `D_diag`, `Q_diag`, the labels and `V_scaled` all have length 16 and agree index by index. Entry `i` comes from index `i`'s angle, from `V[i]`, from `f"{i:04b}"` and from `V[i] / max(V)`. The labels are exactly `states`: four binary characters that decode to `i`. `V_scaled` is the successful result of scaling `V`, and every value lies in `[0, 1]`. |

## Left out

- The circuit machinery is not modelled: `QuantumCircuit`, `QFT` and its inverse, `Diagonal`, `append`, `compose` and `Statevector.evolve` (lines 1-3, 12, 15-19, 34, 37, 47, 50-54). These are library calls whose semantics are not visible here, so unitarity and norm preservation are not stated.
- The 200-step evolution loop (lines 50-52) is not modelled. It only composes opaque circuit objects.
- The initial uniform state `np.ones(16) / np.sqrt(16)` (line 11) is not modelled. It is floating-point data for the opaque `Statevector`.
- The probability extraction `np.abs(final_state.data) ** 2` (line 59) is not modelled. It depends on the evolved state.
- Plotting with matplotlib (lines 5, 62-81) is not modelled. It is I/O.
- `exp(-1j * x * delta_t)` is the caller-supplied function `phase`. Complex exponentials are transcendental floating-point operations, so the model does not compute them.
- `pi^2` is an arbitrary positive real. Floating-point rounding in `linspace`, the powers, the sums and the divisions is not modelled, since all arithmetic is on exact reals. For the same reason, numpy's fix-up that sets the last `linspace` point exactly to `stop` is not written out. Over the reals, `LinspaceEndpoints` proves the last point is already `stop`.
- Python's negative string indices are not modelled. Every index the script uses (`3 - k`, `3 - c`, `3 - t` with `k, c, t` in `0..3`) is non-negative. `QubitSet` and `PairsInRange` require this.
